/** Snapshots of the chat view, and what one build does to them. */
module Snapshots {
  import opened Basics
  import opened Sections

  //////////////////////////////////////////////////////////////////////////////
  // Snapshots: sections of items, both in order
  //////////////////////////////////////////////////////////////////////////////

  function Lists(data: seq<Section>): (r: seq<seq<Message>>)
    ensures |r| == |data| && forall i :: 0 <= i < |r| ==> r[i] == data[i].items
  {
    seq(|data|, i requires 0 <= i < |data| => data[i].items)
  }

  /** itemIdentifiers: the items of all sections. */
  function Items(data: seq<Section>): seq<Message> {
    Concat(Lists(data))
  }

  predicate Holds(data: seq<Section>, id: int) {
    exists j :: 0 <= j < |Items(data)| && Items(data)[j].id == id
  }

  /** appendItems(_:toSection:) for the last section, which traps for an item that is there already. */
  function AppendItem(data: seq<Section>, m: Message): seq<Section>
    requires data != [] && !Holds(data, m.id)
  {
    var last := data[|data| - 1];
    data[..|data| - 1] + [last.(items := last.items + [m])]
  }

  /** deleteItems for the last item of all. */
  function DeleteLastItem(data: seq<Section>): seq<Section>
    requires data != [] && data[|data| - 1].items != []
  {
    var last := data[|data| - 1];
    data[..|data| - 1] + [last.(items := last.items[..|last.items| - 1])]
  }

  lemma ItemsLast(front: seq<Section>, last: Section)
    ensures Items(front + [last]) == Items(front) + last.items
  {
    ConcatAppend(Lists(front), last.items);
    assert Lists(front + [last]) == Lists(front) + [last.items];
  }

  lemma ItemsAppended(data: seq<Section>, m: Message)
    requires data != [] && !Holds(data, m.id)
    ensures Items(AppendItem(data, m)) == Items(data) + [m]
  {
    var front, last := data[..|data| - 1], data[|data| - 1];
    assert data == front + [last];
    ItemsLast(front, last);
    ItemsLast(front, last.(items := last.items + [m]));
  }

  lemma ItemsDeleted(data: seq<Section>)
    requires data != [] && data[|data| - 1].items != []
    ensures Items(data) != [] && Items(DeleteLastItem(data)) == Items(data)[..|Items(data)| - 1]
  {
    var front, last := data[..|data| - 1], data[|data| - 1];
    assert data == front + [last];
    ItemsLast(front, last);
    ItemsLast(front, last.(items := last.items[..|last.items| - 1]));
  }

  //////////////////////////////////////////////////////////////////////////////
  // Snapshots and groups
  //////////////////////////////////////////////////////////////////////////////

  function Faded(s: seq<Message>): (r: seq<Message>)
    ensures |r| == |s| && forall i :: 0 <= i < |r| ==> r[i] == s[i].(seen := false)
  {
    seq(|s|, i requires 0 <= i < |s| => s[i].(seen := false))
  }

  function FadedSection(s: Section): Section {
    s.(items := Faded(s.items))
  }

  /** The snapshot apart from which messages are marked as seen. */
  function Shape(data: seq<Section>): (r: seq<Section>)
    ensures |r| == |data| && forall i :: 0 <= i < |r| ==> r[i] == FadedSection(data[i])
  {
    seq(|data|, i requires 0 <= i < |data| => FadedSection(data[i]))
  }

  lemma {:induction false} ConcatPlains(a: seq<seq<Message>>, b: seq<seq<Message>>)
    requires |a| == |b| && forall i :: 0 <= i < |a| ==> Plains(a[i]) == Plains(b[i])
    ensures Plains(Concat(a)) == Plains(Concat(b))
  {
    if a != [] {
      ConcatPlains(a[1..], b[1..]);
      PlainsAdd(a[0], Concat(a[1..]));
      PlainsAdd(b[0], Concat(b[1..]));
    }
  }

  lemma PlainsAdd(a: seq<Message>, b: seq<Message>)
    ensures Plains(a + b) == Plains(a) + Plains(b)
  {}

  /** A snapshot that shows a group of messages holds exactly these messages, in their order. */
  lemma ShapeShowsAll(data: seq<Section>, s: seq<Message>)
    requires Shape(data) == Grouped(s)
    ensures Plains(Items(data)) == Plains(s)
  {
    RunsPartition(s);
    var r := Runs(s);
    NoEmptyRun(s);
    forall i | 0 <= i < |data| ensures Plains(data[i].items) == Plains(r[i]) {
      assert FadedSection(data[i]) == SectionOf(r[i]);
      FadedPlains(data[i].items, r[i]);
    }
    ConcatPlains(Lists(data), r);
  }

  lemma FadedPlains(items: seq<Message>, run: seq<Message>)
    requires Faded(items) == Rounded(run)
    ensures Plains(items) == Plains(run)
  {
    forall k | 0 <= k < |items| ensures items[k].Plain() == run[k].Plain() {
      assert items[k].(seen := false) == Rounded(run)[k];
    }
  }

  lemma {:induction false} RunLengthPlain(s: seq<Message>, t: seq<Message>)
    requires Plains(s) == Plains(t) && s != [] && t != []
    ensures RunLength(s) == RunLength(t)
  {
    assert |s| == |Plains(s)| == |t|;
    assert s[0].Plain() == t[0].Plain();
    if |s| > 1 {
      assert s[1].Plain() == t[1].Plain();
      assert Plains(s[1..]) == Plains(s)[1..] == Plains(t[1..]);
      RunLengthPlain(s[1..], t[1..]);
    }
  }

  lemma PlainsSplit(s: seq<Message>, n: nat)
    requires n <= |s|
    ensures Plains(s[n..]) == Plains(s)[n..] && Plains(s[..n]) == Plains(s)[..n]
  {}

  predicate SamePlains(r: seq<seq<Message>>, q: seq<seq<Message>>) {
    |r| == |q| && forall i :: 0 <= i < |r| ==> Plains(r[i]) == Plains(q[i])
  }

  lemma SamePlainsCons(x: seq<Message>, r: seq<seq<Message>>, y: seq<Message>, q: seq<seq<Message>>)
    requires Plains(x) == Plains(y) && SamePlains(r, q)
    ensures SamePlains([x] + r, [y] + q)
  {}

  /** Corners and marks of the messages have no influence on how they are grouped. */
  lemma {:induction false} RunsPlain(s: seq<Message>, t: seq<Message>)
    requires Plains(s) == Plains(t)
    ensures SamePlains(Runs(s), Runs(t))
    decreases |s|
  {
    assert |s| == |Plains(s)| == |t|;
    if s != [] {
      RunLengthPlain(s, t);
      var n := RunLength(s);
      PlainsSplit(s, n);
      PlainsSplit(t, n);
      RunsPlain(s[n..], t[n..]);
      SamePlainsCons(s[..n], Runs(s[n..]), t[..n], Runs(t[n..]));
    }
  }

  lemma GroupedPlain(s: seq<Message>, t: seq<Message>)
    requires Plains(s) == Plains(t)
    ensures Grouped(s) == Grouped(t)
  {
    RunsPlain(s, t);
    NoEmptyRun(s);
    NoEmptyRun(t);
    forall i | 0 <= i < |Runs(s)| ensures SectionOf(Runs(s)[i]) == SectionOf(Runs(t)[i]) {
      SectionPlain(Runs(s)[i], Runs(t)[i]);
    }
  }

  lemma SectionPlain(a: seq<Message>, b: seq<Message>)
    requires Plains(a) == Plains(b) && a != [] && b != []
    ensures SectionOf(a) == SectionOf(b)
  {
    assert |a| == |Plains(a)| == |b|;
    assert forall k :: 0 <= k < |a| ==> a[k].Plain() == Plains(a)[k] == b[k].Plain();
    assert Rounded(a) == Rounded(b);
  }

  //////////////////////////////////////////////////////////////////////////////
  // One more message
  //////////////////////////////////////////////////////////////////////////////

  lemma {:induction false} RunHasOneOrigin(run: seq<Message>)
    requires IsRun(run)
    ensures run[0].origin == run[|run| - 1].origin
  {
    if |run| > 1 {
      var tail := run[1..];
      forall i | 0 <= i < |tail| - 1 ensures Joins(tail[i], tail[i + 1]) { assert Joins(run[i + 1], run[i + 2]); }
      RunHasOneOrigin(tail);
      assert Joins(run[0], run[1]);
    }
  }

  lemma LastRun(s: seq<Message>)
    requires s != []
    ensures var run := Runs(s)[|Runs(s)| - 1];
            IsRun(run) && run[|run| - 1] == s[|s| - 1]
  {
    RunsPartition(s);
    var r := Runs(s);
    assert r == r[..|r| - 1] + [r[|r| - 1]];
    ConcatAppend(r[..|r| - 1], r[|r| - 1]);
    assert IsRun(r[|r| - 1]);
  }

  /** The last section shows the last run, so its origin is that of the last message. */
  lemma LastSection(data: seq<Section>, s: seq<Message>)
    requires Shape(data) == Grouped(s) && s != []
    ensures var run := Runs(s)[|Runs(s)| - 1];
            data != [] && run != [] && FadedSection(data[|data| - 1]) == SectionOf(run)
    ensures data[|data| - 1].origin == s[|s| - 1].origin && data[|data| - 1].items != []
  {
    LastRun(s);
    NoEmptyRun(s);
    RunHasOneOrigin(Runs(s)[|Runs(s)| - 1]);
    assert FadedSection(data[|data| - 1]) == Shape(data)[|data| - 1];
  }

  /** The last section of the snapshot, with its last message rounded anew and one more message behind it. */
  function Extended(last: Section, previous: Message, m: Message): Section
    requires last.items != []
  {
    var n := |last.items|;
    last.(items := last.items[..n - 1] + [previous.(corners := if n == 1 then Top else Middle), m.(corners := Bottom)])
  }

  lemma ExtendedRounded(last: Section, run: seq<Message>, previous: Message, m: Message)
    requires run != [] && FadedSection(last) == SectionOf(run) && previous.Plain() == run[|run| - 1].Plain()
    ensures last.items != [] && FadedSection(Extended(last, previous, m)) == SectionOf(run + [m])
  {
    var n := |run|;
    assert |last.items| == |Faded(last.items)| == n;
    var items, run' := Extended(last, previous, m).items, run + [m];
    forall k | 0 <= k <= n ensures Faded(items)[k] == Rounded(run')[k] {
      if k < n - 1 { assert Faded(last.items)[k] == Rounded(run)[k]; }
    }
    assert Faded(items) == Rounded(run');
  }

  /** A message that is joined to the last one extends the last section. */
  lemma JoinedShape(data: seq<Section>, s: seq<Message>, previous: Message, m: Message)
    requires Shape(data) == Grouped(s) && s != [] && previous.Plain() == s[|s| - 1].Plain()
    requires Joins(s[|s| - 1], m)
    ensures data != [] && data[|data| - 1].items != []
    ensures Shape(data[..|data| - 1] + [Extended(data[|data| - 1], previous, m)]) == Grouped(s + [m])
  {
    var r := Runs(s);
    LastRun(s);
    LastSection(data, s);
    NoEmptyRun(s);
    RunsSnoc(s, m);
    NoEmptyRun(s + [m]);
    ExtendedRounded(data[|data| - 1], r[|r| - 1], previous, m);
    var data' := data[..|data| - 1] + [Extended(data[|data| - 1], previous, m)];
    forall i | 0 <= i < |data'| - 1 ensures Shape(data')[i] == Grouped(s + [m])[i] {
      assert Shape(data)[i] == Grouped(s)[i];
    }
  }

  /** Any other message starts a section. */
  lemma SeparateShape(data: seq<Section>, s: seq<Message>, m: Message)
    requires Shape(data) == Grouped(s) && (s != [] ==> !Joins(s[|s| - 1], m))
    ensures Shape(data + [Section(m.origin, [m.(corners := Basic)])]) == Grouped(s + [m])
  {
    if s != [] { LastRun(s); }
    NoEmptyRun(s);
    RunsSnoc(s, m);
    NoEmptyRun(s + [m]);
    var data' := data + [Section(m.origin, [m.(corners := Basic)])];
    assert Faded([m.(corners := Basic)]) == Rounded([m]);
    forall i | 0 <= i < |data| ensures Shape(data')[i] == Grouped(s + [m])[i] {
      assert Shape(data)[i] == Grouped(s)[i];
    }
  }

  predicate DistinctIds(s: seq<Message>) {
    forall i, j :: 0 <= i < j < |s| ==> s[i].id != s[j].id
  }

  /** The snapshot of the first messages holds none of the others. */
  lemma NotYetHeld(data: seq<Section>, s: seq<Message>, n: nat, i: nat)
    requires DistinctIds(s) && n <= i < |s| && Plains(Items(data)) == Plains(s[..n])
    ensures !Holds(data, s[i].id)
  {
    assert |Items(data)| == |Plains(s[..n])| == n;
    forall j | 0 <= j < n ensures Items(data)[j].id != s[i].id {
      assert Items(data)[j].Plain() == s[..n][j].Plain();
    }
  }

  //////////////////////////////////////////////////////////////////////////////
  // Marks
  //////////////////////////////////////////////////////////////////////////////

  /** The position of the last message that is marked as seen, or -1. */
  function LastSeen(s: seq<Message>): (k: int)
    ensures -1 <= k < |s| && (k >= 0 ==> s[k].seen)
    ensures forall j :: k < j < |s| ==> !s[j].seen
  {
    if s == [] then -1 else if s[|s| - 1].seen then |s| - 1 else LastSeen(s[..|s| - 1])
  }

  /** atLeastOneMessageIsSeen(messages:) */
  predicate AnySeen(s: seq<Message>) {
    exists i :: 0 <= i < |s| && s[i].seen
  }

  /** lastSeenIdx(), which makes an identifier up when there is no such message. */
  function LastSeenId(s: seq<Message>): Option<int> {
    if LastSeen(s) == -1 then None else Some(s[LastSeen(s)].id)
  }

  function MarkOnly(s: seq<Message>, id: Option<int>): (r: seq<Message>)
    ensures |r| == |s| && forall i :: 0 <= i < |r| ==> r[i] == s[i].(seen := id == Some(s[i].id))
  {
    seq(|s|, i requires 0 <= i < |s| => s[i].(seen := id == Some(s[i].id)))
  }

  /** Afterwards the last seen message is the only one that is marked. */
  lemma MarkOnlyExact(s: seq<Message>)
    requires DistinctIds(s)
    ensures var r := MarkOnly(s, LastSeenId(s));
            LastSeen(r) == LastSeen(s) && forall i :: 0 <= i < |r| ==> (r[i].seen <==> i == LastSeen(s))
  {}

  lemma LastSeenIs(s: seq<Message>, k: int)
    requires -1 <= k < |s| && (k >= 0 ==> s[k].seen) && forall j :: k < j < |s| ==> !s[j].seen
    ensures LastSeen(s) == k
  {}

  /** What the marks of the shown items have to do with those of the messages after a build from position n on. */
  ghost predicate MarksCarried(before: seq<Message>, items: seq<Message>, messages: seq<Message>, n: nat) {
    && |before| == n <= |items| <= |messages|
    && (forall j :: 0 <= j < n - 1 ==> items[j].seen == before[j].seen)
    && (forall j :: n <= j < |items| ==> items[j].seen == messages[j].seen)
    && (n > 0 ==> items[n - 1].seen == before[n - 1].seen || items[n - 1].seen == messages[n - 1].seen)
  }

  lemma LaterSeen(before: seq<Message>, known: seq<Message>, added: seq<Message>, k: int)
    requires |before| == |known| <= k && LastSeen(known + added) == k
    ensures LastSeen(before + added) == k
  {
    assert forall j :: |known| <= j < |known + added| ==> (before + added)[j] == (known + added)[j];
    LastSeenIs(before + added, k);
  }

  /** With a new message that is seen, the mark moves to the last one of these. */
  lemma MarkMoves(before: seq<Message>, items: seq<Message>, known: seq<Message>, added: seq<Message>)
    requires |known| == |before| && DistinctIds(known + added) && AnySeen(added)
    requires var messages := MarkOnly(known + added, LastSeenId(known + added));
             |items| == |messages| && MarksCarried(before, items, messages, |before|)
    ensures LastSeen(items) == LastSeen(before + added) == LastSeen(known + added)
  {
    var n, all := |before|, known + added;
    MarkOnlyExact(all);
    var i :| 0 <= i < |added| && added[i].seen;
    assert all[n + i].seen;
    var k := LastSeen(all);
    assert n <= n + i <= k;
    assert forall j :: n <= j < |items| ==> items[j].seen == (j == k);
    LastSeenIs(items, k);
    LaterSeen(before, known, added, k);
  }

  /** Otherwise the mark stays where it is. */
  lemma MarkStays(before: seq<Message>, items: seq<Message>, known: seq<Message>, added: seq<Message>)
    requires |known| == |before| && !AnySeen(added) && LastSeen(before) == LastSeen(known)
    requires |items| == |known + added| && MarksCarried(before, items, known + added, |before|)
    ensures LastSeen(items) == LastSeen(before + added) == LastSeen(known + added)
  {
    var k, all := LastSeen(before), known + added;
    LastSeenIs(all, k);
    LastSeenIs(before + added, k);
    assert forall j :: |before| <= j < |items| ==> items[j].seen == all[j].seen;
    LastSeenIs(items, k);
  }

  /** What one more message does to the marks. */
  ghost predicate OneMore(items: seq<Message>, items': seq<Message>, messages: seq<Message>) {
    && |items'| == |items| + 1 <= |messages|
    && (forall j :: 0 <= j < |items| - 1 ==> items'[j].seen == items[j].seen)
    && items'[|items|].seen == messages[|items|].seen
    && (items != [] ==> var j := |items| - 1;
        items'[j].seen == items[j].seen || items'[j].seen == messages[j].seen)
  }

  lemma MarkOnlyPlain(s: seq<Message>, id: Option<int>)
    ensures Plains(MarkOnly(s, id)) == Plains(s)
  {}

  //////////////////////////////////////////////////////////////////////////////
  // One round of the loop
  //////////////////////////////////////////////////////////////////////////////

  /** The snapshot shows the first messages, as many as it has items. */
  ghost predicate Shows(data: seq<Section>, messages: seq<Message>) {
    |Items(data)| <= |messages| && Shape(data) == Grouped(messages[..|Items(data)|])
  }

  /** Deleting the last item and appending two others, step by step. */
  lemma ReplacedIs(data: seq<Section>, p: Message, m: Message)
    requires data != [] && data[|data| - 1].items != [] && !Holds(DeleteLastItem(data), p.id)
    requires !Holds(AppendItem(DeleteLastItem(data), p), m.id)
    ensures var last := data[|data| - 1];
            AppendItem(AppendItem(DeleteLastItem(data), p), m)
            == data[..|data| - 1] + [last.(items := last.items[..|last.items| - 1] + [p, m])]
    ensures var replaced := AppendItem(DeleteLastItem(data), p);
            Items(AppendItem(replaced, m)) == Items(replaced) + [m]
  {
    ItemsAppended(AppendItem(DeleteLastItem(data), p), m);
    var front := data[..|data| - 1];
    assert forall s: Section :: (front + [s])[..|front|] == front;
    var items := data[|data| - 1].items;
    assert items[..|items| - 1] + [p] + [m] == items[..|items| - 1] + [p, m];
  }

  /** Deleting the last item leaves the messages before it. */
  lemma LastDeleted(data: seq<Section>, s: seq<Message>)
    requires Shape(data) == Grouped(s) && s != []
    ensures data != [] && data[|data| - 1].items != []
    ensures Items(data) != [] && Items(DeleteLastItem(data)) == Items(data)[..|Items(data)| - 1]
    ensures Plains(Items(DeleteLastItem(data))) == Plains(s[..|s| - 1])
  {
    LastSection(data, s);
    ItemsDeleted(data);
    ShapeShowsAll(data, s);
    assert |Items(data)| == |Plains(Items(data))| == |s|;
    PlainsSplit(Items(data), |s| - 1);
    PlainsSplit(s, |s| - 1);
  }

  /** The next message may be appended. */
  lemma NextAppended(data: seq<Section>, messages: seq<Message>, n: nat, p: Message)
    requires data != [] && n < |messages| && DistinctIds(messages) && p.Plain() == messages[n].Plain()
    requires Plains(Items(data)) == Plains(messages[..n])
    ensures !Holds(data, p.id) && Items(AppendItem(data, p)) == Items(data) + [p]
    ensures Plains(Items(AppendItem(data, p))) == Plains(messages[..n + 1])
  {
    NotYetHeld(data, messages, n, n);
    assert p.id == p.Plain().id == messages[n].id;
    ItemsAppended(data, p);
    PlainsAdd(Items(data), [p]);
    PlainsAdd(messages[..n], [messages[n]]);
    FrontAnd(messages, n);
    assert Plains([p]) == Plains([messages[n]]);
  }

  /** The last item may be deleted and appended again, and then the next message may be appended. */
  lemma LastReplaced(data: seq<Section>, messages: seq<Message>, i: nat, p: Message)
    requires 1 <= i < |messages| && Shape(data) == Grouped(messages[..i]) && DistinctIds(messages)
    requires p.Plain() == messages[i - 1].Plain()
    ensures data != [] && data[|data| - 1].items != [] && !Holds(DeleteLastItem(data), p.id)
    ensures Items(data) != []
    ensures var replaced := AppendItem(DeleteLastItem(data), p);
            Items(replaced) == Items(data)[..|Items(data)| - 1] + [p] && !Holds(replaced, messages[i].id)
  {
    LastDeleted(data, messages[..i]);
    assert messages[..i][..i - 1] == messages[..i - 1];
    NextAppended(DeleteLastItem(data), messages, i - 1, p);
    NotYetHeld(AppendItem(DeleteLastItem(data), p), messages, i, i);
  }

  /** One message more, replacing the last item or not. */
  lemma OneMoreIs(items: seq<Message>, items': seq<Message>, messages: seq<Message>, p: Message, m: Message)
    requires |items| < |messages| && m.seen == messages[|items|].seen
    requires items' == items + [m]
          || (items != [] && p.seen == messages[|items| - 1].seen && items' == items[..|items| - 1] + [p] + [m])
    ensures OneMore(items, items', messages)
  {}

  /** The snapshot after the branch for a message that goes to the last section. */
  function Joined(data: seq<Section>, p: Message, m: Message): seq<Section>
    requires data != [] && data[|data| - 1].items != [] && !Holds(DeleteLastItem(data), p.id)
    requires !Holds(AppendItem(DeleteLastItem(data), p), m.id)
  {
    AppendItem(AppendItem(DeleteLastItem(data), p), m)
  }

  lemma JoinedShows(data: seq<Section>, messages: seq<Message>, i: nat, p: Message, m: Message)
    requires Shows(data, messages) && 1 <= |Items(data)| == i < |messages| && DistinctIds(messages)
    requires Joins(messages[i - 1], messages[i]) && data != []
    requires p == messages[i - 1].(corners := if |data[|data| - 1].items| == 1 then Top else Middle)
    requires m == messages[i].(corners := Bottom)
    ensures data[|data| - 1].items != [] && !Holds(DeleteLastItem(data), p.id)
    ensures !Holds(AppendItem(DeleteLastItem(data), p), m.id)
    ensures Shows(Joined(data, p, m), messages) && OneMore(Items(data), Items(Joined(data, p, m)), messages)
  {
    LastReplaced(data, messages, i, p);
    JoinedOneMore(data, messages, p, m);
    JoinedGrouped(data, messages, i, p, m);
  }

  lemma JoinedOneMore(data: seq<Section>, messages: seq<Message>, p: Message, m: Message)
    requires data != [] && data[|data| - 1].items != [] && !Holds(DeleteLastItem(data), p.id)
    requires !Holds(AppendItem(DeleteLastItem(data), p), m.id)
    requires 0 < |Items(data)| < |messages| && m.seen == messages[|Items(data)|].seen
    requires p.seen == messages[|Items(data)| - 1].seen
    requires Items(AppendItem(DeleteLastItem(data), p)) == Items(data)[..|Items(data)| - 1] + [p]
    ensures OneMore(Items(data), Items(Joined(data, p, m)), messages)
  {
    ReplacedIs(data, p, m);
    OneMoreIs(Items(data), Items(Joined(data, p, m)), messages, p, m);
  }

  lemma JoinedGrouped(data: seq<Section>, messages: seq<Message>, i: nat, p: Message, m: Message)
    requires 1 <= i < |messages| && Shape(data) == Grouped(messages[..i]) && Joins(messages[i - 1], messages[i])
    requires data != [] && data[|data| - 1].items != [] && !Holds(DeleteLastItem(data), p.id)
    requires p == messages[i - 1].(corners := if |data[|data| - 1].items| == 1 then Top else Middle)
    requires m == messages[i].(corners := Bottom) && !Holds(AppendItem(DeleteLastItem(data), p), m.id)
    ensures Shape(Joined(data, p, m)) == Grouped(messages[..i + 1])
  {
    ReplacedIs(data, p, m);
    JoinedShape(data, messages[..i], messages[i - 1], messages[i]);
    FrontAnd(messages, i);
  }

  lemma FrontAnd(messages: seq<Message>, i: nat)
    requires i < |messages|
    ensures messages[..i] + [messages[i]] == messages[..i + 1]
  {}

  /** The snapshot after the branch for a message that starts a section. */
  function Separate(data: seq<Section>, m: Message): seq<Section> {
    data + [Section(m.origin, [m.(corners := Basic)])]
  }

  lemma SeparateItems(data: seq<Section>, m: Message)
    requires !Holds(data, m.id)
    ensures var begun := data + [Section(m.origin, [])];
            !Holds(begun, m.id) && AppendItem(begun, m.(corners := Basic)) == Separate(data, m)
    ensures Items(Separate(data, m)) == Items(data) + [m.(corners := Basic)]
  {
    var begun := data + [Section(m.origin, [])];
    ItemsLast(data, Section(m.origin, []));
    assert Items(begun) == Items(data);
    ItemsLast(data, Section(m.origin, [m.(corners := Basic)]));
    assert begun[..|begun| - 1] == data && [] + [m.(corners := Basic)] == [m.(corners := Basic)];
  }

  lemma SeparateShows(data: seq<Section>, messages: seq<Message>, i: nat)
    requires Shows(data, messages) && |Items(data)| == i < |messages| && DistinctIds(messages)
    requires i == 0 || !Joins(messages[i - 1], messages[i])
    ensures var m := messages[i];
            var begun := data + [Section(m.origin, [])];
            !Holds(begun, m.id) && AppendItem(begun, m.(corners := Basic)) == Separate(data, m)
    ensures Shows(Separate(data, messages[i]), messages)
    ensures OneMore(Items(data), Items(Separate(data, messages[i])), messages)
  {
    var m := messages[i];
    assert !Holds(data, m.id) by {
      ShapeShowsAll(data, messages[..i]);
      NotYetHeld(data, messages, i, i);
    }
    SeparateItems(data, m);
    OneMoreIs(Items(data), Items(Separate(data, m)), messages, m, m.(corners := Basic));
    assert Shape(Separate(data, m)) == Grouped(messages[..i + 1]) by {
      SeparateShape(data, messages[..i], m);
      FrontAnd(messages, i);
    }
  }

  /** The messages with the marks that a build leaves on them. */
  function Marked(known: seq<Message>, added: seq<Message>): seq<Message> {
    if AnySeen(added) then MarkOnly(known + added, LastSeenId(known + added)) else known + added
  }

  lemma MarkedPlain(known: seq<Message>, added: seq<Message>)
    ensures Plains(Marked(known, added)) == Plains(known + added)
    ensures Grouped(Marked(known, added)) == Grouped(known + added)
    ensures DistinctIds(known + added) ==> DistinctIds(Marked(known, added))
  {
    MarkOnlyPlain(known + added, LastSeenId(known + added));
    GroupedPlain(Marked(known, added), known + added);
  }

  /** The state of a build before round i, given the items before it. */
  ghost predicate InRound(before: seq<Message>, data: seq<Section>, messages: seq<Message>, i: nat) {
    && Shows(data, messages) && MarksCarried(before, Items(data), messages, |before|)
    && |Items(data)| == if i < |before| then |before| else i
  }

  lemma CarryOneMore(
    before: seq<Message>, items: seq<Message>, items': seq<Message>, messages: seq<Message>, n: nat)
    requires MarksCarried(before, items, messages, n) && OneMore(items, items', messages)
    ensures MarksCarried(before, items', messages, n)
  {}

  lemma RoundDone(before: seq<Message>, data: seq<Section>, data': seq<Section>, messages: seq<Message>)
    requires InRound(before, data, messages, |Items(data)|)
    requires Shows(data', messages) && OneMore(Items(data), Items(data'), messages)
    ensures InRound(before, data', messages, |Items(data)| + 1)
  {
    CarryOneMore(before, Items(data), Items(data'), messages, |before|);
  }

  lemma BuildStarts(data: seq<Section>, known: seq<Message>, added: seq<Message>)
    requires Shape(data) == Grouped(known)
    ensures |Items(data)| == |known| && InRound(Items(data), data, Marked(known, added), 0)
  {
    ShapeShowsAll(data, known);
    assert |Items(data)| == |Plains(Items(data))| == |Plains(known)| == |known|;
    var marked := Marked(known, added);
    MarkedPlain(known, added);
    PlainsSplit(marked, |known|);
    PlainsSplit(known + added, |known|);
    assert (known + added)[..|known|] == known;
    GroupedPlain(marked[..|known|], known);
  }

  lemma BuildEnds(before: seq<Message>, known: seq<Message>, added: seq<Message>, data: seq<Section>)
    requires |before| == |known| && DistinctIds(known + added) && LastSeen(before) == LastSeen(known)
    requires InRound(before, data, Marked(known, added), |known + added|)
    ensures Shape(data) == Grouped(known + added) == Grouped(Marked(known, added))
    ensures LastSeen(Items(data)) == LastSeen(Marked(known, added)) == LastSeen(before + added)
  {
    MarkedPlain(known, added);
    var marked := Marked(known, added);
    assert marked[..|marked|] == marked;
    if AnySeen(added) {
      MarkOnlyExact(known + added);
      MarkMoves(before, Items(data), known, added);
    } else {
      MarkStays(before, Items(data), known, added);
    }
  }

  //////////////////////////////////////////////////////////////////////////////
  // Batches
  //////////////////////////////////////////////////////////////////////////////

  /** The snapshot is what a build of all the messages makes. */
  ghost predicate Shown(data: seq<Section>, s: seq<Message>) {
    && Shape(data) == Grouped(s) == Grouped(Items(data))
    && Plains(Items(data)) == Plains(s) && LastSeen(Items(data)) == LastSeen(s)
  }

  lemma {:induction false} LastSeenAdd(a: seq<Message>, b: seq<Message>, c: seq<Message>)
    requires |a| == |b| && LastSeen(a) == LastSeen(b)
    ensures LastSeen(a + c) == LastSeen(b + c)
  {
    if LastSeen(c) >= 0 {
      LastSeenIs(a + c, |a| + LastSeen(c));
      LastSeenIs(b + c, |a| + LastSeen(c));
    } else {
      LastSeenIs(a + c, LastSeen(a));
      LastSeenIs(b + c, LastSeen(a));
    }
  }

  lemma DistinctPlain(a: seq<Message>, b: seq<Message>)
    requires Plains(a) == Plains(b) && DistinctIds(a)
    ensures DistinctIds(b)
  {
    assert |a| == |Plains(a)| == |b|;
    assert forall i :: 0 <= i < |a| ==> b[i].id == Plains(b)[i].id == a[i].id;
  }

  lemma {:induction false} ConcatTake<T>(r: seq<seq<T>>, i: nat)
    requires i < |r|
    ensures Concat(r[..i + 1]) == Concat(r[..i]) + r[i]
    ensures |Concat(r[..i + 1])| <= |Concat(r)| && Concat(r[..i + 1]) == Concat(r)[..|Concat(r[..i + 1])|]
  {
    assert r[..i + 1] == r[..i] + [r[i]];
    ConcatAppend(r[..i], r[i]);
    ConcatAdd(r[..i + 1], r[i + 1..]);
    assert r == r[..i + 1] + r[i + 1..];
  }

  lemma {:induction false} ConcatAdd<T>(r: seq<seq<T>>, q: seq<seq<T>>)
    ensures Concat(r + q) == Concat(r) + Concat(q)
  {
    if r == [] {
      assert r + q == q;
    } else {
      assert (r + q)[1..] == r[1..] + q;
      ConcatAdd(r[1..], q);
    }
  }

  /** The first batches, one more, are still distinct messages. */
  lemma NextBatch(batches: seq<seq<Message>>, i: nat)
    requires i < |batches| && DistinctIds(Concat(batches)) && batches[0] != []
    ensures Concat(batches[..i + 1]) == Concat(batches[..i]) + batches[i] != []
    ensures DistinctIds(Concat(batches[..i + 1]))
  {
    ConcatTake(batches, i);
    assert i > 0 ==> batches[..i][0] == batches[0];
  }

  /** A batch has the same effect on the items shown as on the messages they stand for. */
  lemma BatchFits(items: seq<Message>, s: seq<Message>, batch: seq<Message>)
    requires Plains(items) == Plains(s) && LastSeen(items) == LastSeen(s)
    requires DistinctIds(s + batch)
    ensures DistinctIds(items + batch) && |items + batch| == |s + batch|
    ensures Grouped(items + batch) == Grouped(s + batch)
    ensures Plains(items + batch) == Plains(s + batch)
    ensures LastSeen(items + batch) == LastSeen(s + batch)
  {
    assert |items| == |Plains(items)| == |s|;
    PlainsAdd(items, batch);
    PlainsAdd(s, batch);
    GroupedPlain(items + batch, s + batch);
    DistinctPlain(s + batch, items + batch);
    LastSeenAdd(items, s, batch);
  }
}
