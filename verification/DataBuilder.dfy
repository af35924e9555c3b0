/** DataBuilder, which adds messages to the sections that the chat view already shows. */
module DataBuilding {
  import opened Sections
  import opened Snapshots

  class DataBuilder {
    var data: seq<Section>
    var messages: seq<Message>

    /** The snapshot shows the messages, and the mark of the last seen one is where they have it. */
    ghost predicate Valid()
      reads this
    {
      Shape(data) == Grouped(messages) && LastSeen(Items(data)) == LastSeen(messages)
    }

    /** A builder starts from a snapshot that an earlier one has made. */
    constructor (data: seq<Section>)
      requires Shape(data) == Grouped(Items(data))
      ensures Valid() && this.data == data && messages == Items(data)
    {
      this.data, messages := data, Items(data);
    }

    /** build(messages:) */
    method Build(added: seq<Message>) returns (result: seq<Section>)
      requires Valid() && messages + added != [] && DistinctIds(messages + added)
      modifies this
      ensures Valid() && result == data && messages == Marked(old(messages), added)
      ensures Shape(result) == Grouped(old(messages) + added)
      ensures LastSeen(Items(result)) == LastSeen(old(Items(data)) + added)
    {
      ghost var before, known := Items(data), messages;
      BuildStarts(data, known, added);
      MarkedPlain(known, added);
      TakeOver(added);
      for i := 0 to |messages|
        invariant messages == Marked(known, added)
        invariant InRound(before, data, messages, i)
      {
        if i < |Items(data)| {
          continue;
        }
        ghost var shown := data;
        AddNext(i);
        RoundDone(before, shown, data, messages);
      }
      BuildEnds(before, known, added, data);
      result := data;
    }

    /** The new messages join the others, and only the last one seen stays marked if one of them is. */
    method TakeOver(added: seq<Message>)
      modifies this`messages
      ensures messages == Marked(old(messages), added)
    {
      messages := messages + added;
      if AnySeen(added) {
        messages := MarkOnly(messages, LastSeenId(messages));
      }
    }

    /** One round of the loop in build(messages:). */
    method AddNext(i: nat)
      requires i < |messages| && i == |Items(data)| && Shows(data, messages) && DistinctIds(messages)
      modifies this`data
      ensures Shows(data, messages) && OneMore(old(Items(data)), Items(data), messages)
    {
      var m := messages[i];
      if i > 0 { LastSection(data, messages[..i]); }
      if data != [] && data[|data| - 1].origin == m.origin && i >= 1
         && Hours(messages[i - 1].date, m.date) <= 2 && messages[i - 1].userId == m.userId {
        AddToLast(i);
      } else {
        StartSection(i);
      }
    }

    method AddToLast(i: nat)
      requires 1 <= i < |messages| && i == |Items(data)| && Shows(data, messages) && DistinctIds(messages)
      requires Joins(messages[i - 1], messages[i]) && data != []
      modifies this`data
      ensures Shows(data, messages) && OneMore(old(Items(data)), Items(data), messages)
    {
      var previous, m := messages[i - 1], messages[i];
      JoinedShows(data, messages, i, Rerounded(previous), m.(corners := Bottom));
      Replace(previous);
      data := AppendItem(data, m.(corners := Bottom));
    }

    /** The last message shown, with the corners it gets when another one joins it. */
    ghost function Rerounded(previous: Message): Message
      requires data != []
      reads this
    {
      previous.(corners := if |data[|data| - 1].items| == 1 then Top else Middle)
    }

    /** The last message shown is deleted and appended again with other corners. */
    method Replace(previous: Message)
      requires data != [] && data[|data| - 1].items != [] && !Holds(DeleteLastItem(data), previous.id)
      modifies this`data
      ensures data == old(AppendItem(DeleteLastItem(data), Rerounded(previous)))
    {
      if |data[|data| - 1].items| == 1 {
        data := DeleteLastItem(data);
        data := AppendItem(data, previous.(corners := Top));
      } else {
        data := DeleteLastItem(data);
        data := AppendItem(data, previous.(corners := Middle));
      }
    }

    method StartSection(i: nat)
      requires i < |messages| && i == |Items(data)| && Shows(data, messages) && DistinctIds(messages)
      requires i == 0 || !Joins(messages[i - 1], messages[i])
      modifies this`data
      ensures Shows(data, messages) && OneMore(old(Items(data)), Items(data), messages)
    {
      var m := messages[i];
      SeparateShows(data, messages, i);
      data := data + [Section(m.origin, [])];
      data := AppendItem(data, m.(corners := Basic));
    }
  }

  /** addMessages of the chat view: every batch has a builder of its own, which starts from the snapshot shown. */
  method AddMessages(snap: seq<Section>, added: seq<Message>) returns (result: seq<Section>)
    requires Shape(snap) == Grouped(Items(snap))
    requires Items(snap) + added != [] && DistinctIds(Items(snap) + added)
    ensures Shape(result) == Grouped(Items(snap) + added) == Grouped(Items(result))
    ensures Plains(Items(result)) == Plains(Items(snap) + added)
    ensures LastSeen(Items(result)) == LastSeen(Items(snap) + added)
  {
    var builder := new DataBuilder(snap);
    result := builder.Build(added);
    ShapeShowsAll(result, Items(snap) + added);
    GroupedPlain(Items(result), Items(snap) + added);
  }

  /** Messages that arrive in batches are shown as if they had arrived all at once. */
  method AddBatches(batches: seq<seq<Message>>) returns (snap: seq<Section>)
    requires DistinctIds(Concat(batches)) && (batches != [] ==> batches[0] != [])
    ensures Shape(snap) == Grouped(Concat(batches)) && Plains(Items(snap)) == Plains(Concat(batches))
    ensures LastSeen(Items(snap)) == LastSeen(Concat(batches))
  {
    snap := [];
    for i := 0 to |batches|
      invariant Shown(snap, Concat(batches[..i]))
    {
      NextBatch(batches, i);
      BatchFits(Items(snap), Concat(batches[..i]), batches[i]);
      snap := AddMessages(snap, batches[i]);
    }
    assert batches[..|batches|] == batches;
  }
}
