/** `ChatChannel.reply`: clean a text, split its long lines at a delimiter, pack the pieces into messages
    and carry the current colour from one message into the next. */
module Chat {
  import opened Machine
  import opened Text
  import opened Color
  import opened Greedy

  const MAX_MSG_LENGTH: nat := 1000

  function ConcatEach(groups: seq<seq<string>>): (texts: seq<string>)
    ensures |texts| == |groups| && forall i :: 0 <= i < |groups| ==> texts[i] == Concat(groups[i])
  {
    seq(|groups|, i requires 0 <= i < |groups| => Concat(groups[i]))
  }

  function JoinEach(groups: seq<seq<string>>): (texts: seq<string>)
    ensures |texts| == |groups| && forall i :: 0 <= i < |groups| ==> texts[i] == Join(groups[i], '\n')
  {
    seq(|groups|, i requires 0 <= i < |groups| => Join(groups[i], '\n'))
  }

  lemma ConcatEachExtend(groups: seq<seq<string>>, group: seq<string>)
    ensures ConcatEach(groups + [group]) == ConcatEach(groups) + [Concat(group)]
  {}

  lemma JoinEachExtend(groups: seq<seq<string>>, group: seq<string>)
    ensures JoinEach(groups + [group]) == JoinEach(groups) + [Join(group, '\n')]
  {}

  // ---------- splitting long lines ----------

  /** The chunks of one line: the line itself if it fits, else its items filled greedily. */
  function LineChunks(line: string, limit: nat, delimiter: string): seq<string> {
    if ByteLen(line) <= limit then [line] else ConcatEach(Groups(Items(line, delimiter), 0, limit))
  }

  function ChunkLists(lines: seq<string>, limit: nat, delimiter: string): (lists: seq<seq<string>>)
    ensures |lists| == |lines|
    ensures forall i :: 0 <= i < |lines| ==> lists[i] == LineChunks(lines[i], limit, delimiter)
  {
    seq(|lines|, i requires 0 <= i < |lines| => LineChunks(lines[i], limit, delimiter))
  }

  /** The chunks of all lines, one after the other. */
  function AllChunks(lines: seq<string>, limit: nat, delimiter: string): seq<string> {
    Flatten(ChunkLists(lines, limit, delimiter))
  }

  lemma {:induction false} ConcatCost(group: seq<string>)
    ensures Cost(group, 0) == ByteLen(Concat(group))
  {
    if group != [] {
      ConcatCost(group[1..]);
      ByteLenConcat(group[0], Concat(group[1..]));
    }
  }

  lemma ExtendGroup(group: seq<string>, item: string)
    ensures Concat(group + [item]) == Concat(group) + item
    ensures Cost(group + [item], 0) == ByteLen(Concat(group)) + ByteLen(item)
  {
    ConcatAppend(group, [item]);
    assert Concat([item]) == item by { assert [item][1..] == []; }
    ConcatCost(group + [item]);
    ByteLenConcat(Concat(group), item);
  }

  /** The state of the splitting loop, see `Filling`. */
  predicate Splitting(all: seq<string>, done: seq<seq<string>>, cur: seq<string>, rest: seq<string>, limit: nat,
                      result: seq<string>, nextString: string)
  {
    && Filling(all, done, cur, rest, 0, limit)
    && result == ConcatEach(done)
    && nextString == Concat(cur)
    && (nextString == "" <==> cur == [])
  }

  lemma SplittingKeep(all: seq<string>, done: seq<seq<string>>, cur: seq<string>, rest: seq<string>, limit: nat,
                      result: seq<string>, nextString: string)
    requires Splitting(all, done, cur, rest, limit, result, nextString) && rest != [] && rest[0] != ""
    requires nextString == "" || ByteLen(nextString) + ByteLen(rest[0]) <= limit
    ensures Splitting(all, done, cur + [rest[0]], rest[1..], limit, result, nextString + rest[0])
  {
    ExtendGroup(cur, rest[0]);
    FillingKeep(all, done, cur, rest, 0, limit);
  }

  lemma SplittingCut(all: seq<string>, done: seq<seq<string>>, cur: seq<string>, rest: seq<string>, limit: nat,
                     result: seq<string>, nextString: string)
    requires Splitting(all, done, cur, rest, limit, result, nextString) && rest != [] && rest[0] != ""
    requires nextString != "" && ByteLen(nextString) + ByteLen(rest[0]) > limit
    ensures Splitting(all, done + [cur], [rest[0]], rest[1..], limit, result + [nextString], rest[0])
  {
    ExtendGroup(cur, rest[0]);
    ExtendGroup([], rest[0]);
    assert [] + [rest[0]] == [rest[0]];
    FillingCut(all, done, cur, rest, 0, limit);
    ConcatEachExtend(done, cur);
  }

  method SplitLongLine(line: string, limit: nat, delimiter: string) returns (result: seq<string>)
    requires ByteLen(line) > limit
    ensures result == LineChunks(line, limit, delimiter)
  {
    result := [];
    var nextString := "";
    var items := SplitInclusive(line, delimiter);
    ghost var all := Items(line, delimiter);
    ghost var done, cur, rest := [], [], all;
    ghost var lead := |items| - |all|;  // the empty item in front, if any
    assert items == items[..lead] + all;
    FillingStart(all, 0, limit);
    for i := 0 to |items|
      invariant rest == if i < lead then all else items[i..]
      invariant i < lead ==> cur == []
      invariant forall k :: lead <= k < |items| ==> items[k] != ""
      invariant Splitting(all, done, cur, rest, limit, result, nextString)
    {
      var item := items[i];
      if ByteLen(nextString) + ByteLen(item) <= limit {
        if i >= lead {
          SplittingKeep(all, done, cur, rest, limit, result, nextString);
          cur := cur + [item];
        }
        nextString := nextString + item;
      } else {
        if nextString != "" {
          SplittingCut(all, done, cur, rest, limit, result, nextString);
          result := result + [nextString];
          done := done + [cur];
        } else {
          SplittingKeep(all, done, cur, rest, limit, result, nextString);
          assert [] + [item] == [item] && "" + item == item;
        }
        nextString := item;
        cur := [item];
      }
      rest := items[i + 1..];
    }
    FillingEnd(all, done, cur, 0, limit);
    ConcatEachExtend(done, cur);
    if nextString != "" {
      result := result + [nextString];
    }
  }

  lemma ChunksExtend(lines: seq<string>, i: nat, limit: nat, delimiter: string)
    requires i < |lines|
    ensures AllChunks(lines[..i + 1], limit, delimiter)
         == AllChunks(lines[..i], limit, delimiter) + LineChunks(lines[i], limit, delimiter)
  {
    var lists, chunks := ChunkLists(lines[..i], limit, delimiter), LineChunks(lines[i], limit, delimiter);
    assert ChunkLists(lines[..i + 1], limit, delimiter) == lists + [chunks];
    FlattenAppend(lists, [chunks]);
    assert Flatten([chunks]) == chunks by { assert [chunks][1..] == []; }
  }

  method SplitLongLines(msg: string, limit: i32, delimiter: string) returns (result: seq<string>)
    ensures result == AllChunks(Split(msg, '\n'), AsUsize(limit), delimiter)
  {
    result := [];
    var lines := Split(msg, '\n');
    for i := 0 to |lines|
      invariant result == AllChunks(lines[..i], AsUsize(limit), delimiter)
    {
      var value := lines[i];
      ChunksExtend(lines, i, AsUsize(limit), delimiter);
      if ByteLen(value) <= AsUsize(limit) {
        result := result + [value];
      } else {
        var chunks := SplitLongLine(value, AsUsize(limit), delimiter);
        result := result + chunks;
      }
    }
    assert lines[..|lines|] == lines;
  }

  // ---------- packing lines into messages ----------

  /** The messages: lines filled greedily, a newline between two lines of one message. */
  function Pack(lines: seq<string>): seq<string> {
    JoinEach(Groups(lines, 1, MAX_MSG_LENGTH + 1))
  }

  lemma {:induction false} JoinCost(group: seq<string>)
    requires group != []
    ensures Cost(group, 1) == ByteLen(Join(group, '\n')) + 1
  {
    if |group| > 1 {
      JoinCost(group[1..]);
      ByteLenConcat(group[0], ['\n']);
      ByteLenConcat(group[0] + ['\n'], Join(group[1..], '\n'));
      assert ByteLen(['\n']) == 1;
    }
  }

  lemma ExtendMessage(group: seq<string>, line: string)
    requires group != []
    ensures Join(group + [line], '\n') == Join(group, '\n') + "\n" + line
    ensures Cost(group + [line], 1) == ByteLen(Join(group, '\n') + "\n" + line) + 1
  {
    JoinAppend(group, [line], '\n');
    JoinCost(group + [line]);
  }

  method PackLines(lines: seq<string>) returns (joined: seq<string>)
    ensures joined == Pack(lines)
  {
    joined := [];
    ghost var done: seq<seq<string>> := [];
    ghost var cur: seq<string> := [];
    ghost var cap := MAX_MSG_LENGTH + 1;
    ghost var rest := lines;
    FillingStart(lines, 1, cap);
    for i := 0 to |lines|
      invariant rest == lines[i..]
      invariant Filling(lines, done, cur, rest, 1, cap)
      invariant if cur == [] then done == [] && joined == [] && i == 0
                else joined == JoinEach(done) + [Join(cur, '\n')]
    {
      var s := lines[i];
      if joined == [] {
        FillingKeep(lines, done, [], rest, 1, cap);
        assert [] + [s] == [s];
        joined := [s];
        cur := [s];
      } else {
        var lastMsg := joined[|joined| - 1];
        joined := joined[..|joined| - 1];
        assert joined == JoinEach(done) && lastMsg == Join(cur, '\n');
        var sNew := lastMsg + "\n" + s;
        ExtendMessage(cur, s);
        if ByteLen(sNew) > MAX_MSG_LENGTH {
          FillingCut(lines, done, cur, rest, 1, cap);
          joined := joined + [lastMsg];
          JoinEachExtend(done, cur);
          joined := joined + [s];
          done := done + [cur];
          cur := [s];
        } else {
          FillingKeep(lines, done, cur, rest, 1, cap);
          joined := joined + [sNew];
          cur := cur + [s];
        }
      }
      rest := rest[1..];
    }
    FillingEnd(lines, done, cur, 1, cap);
    JoinEachExtend(done, cur);
  }

  // ---------- carrying the colour ----------

  /** Each message starts with the colour the text before it ends in. */
  function Emit(color: string, messages: seq<string>): seq<string>
    decreases |messages|
  {
    if messages == [] then []
    else [color + messages[0]] + Emit(EndColor(color, messages[0]), messages[1..])
  }

  predicate IsColor(color: string) {
    color == "" || IsTag(color)
  }

  /** A colour prefix does to a text what starting in that colour does. */
  lemma PaintPrefixed(color: string, s: string)
    requires IsColor(color)
    ensures Paint("", color + s) == Paint(color, s)
    ensures EndColor("", color + s) == EndColor(color, s)
  {
    if color == "" {
      assert color + s == s;
    } else {
      assert (color + s)[..2] == color && (color + s)[2..] == s;
    }
  }

  lemma EndColorIsColor(color: string, s: string)
    requires IsColor(color)
    ensures IsColor(EndColor(color, s))
  {
    LastTagIsEndColor(color, s);
  }

  lemma NextColor(color: string, s: string)
    requires IsColor(color)
    ensures EndColor(color, s) ==
            if FindTags(color + s) == [] then color else FindTags(color + s)[|FindTags(color + s)| - 1]
  {
    PaintPrefixed(color, s);
    LastTagIsEndColor("", color + s);
    if FindTags(color + s) == [] && color != "" {
      assert TagAt(color + s, 0);
    }
  }

  // ---------- the whole reply ----------

  /** A double quote would end the server command early. */
  function Clean(msg: string): (cleaned: string)
    ensures |cleaned| == |msg| && '\"' !in cleaned
    ensures forall i :: 0 <= i < |msg| && cleaned[i] != msg[i] ==> msg[i] == '\"' && cleaned[i] == '\''
  {
    seq(|msg|, i requires 0 <= i < |msg| => if msg[i] == '\"' then '\'' else msg[i])
  }

  /** The split lines of a reply. */
  function ReplyLines(msg: string, limit: i32, delimiter: string): seq<string> {
    AllChunks(Split(Clean(msg), '\n'), AsUsize(limit), delimiter)
  }

  /** The messages of a reply before the server command is formatted. */
  function ReplyMessages(msg: string, limit: i32, delimiter: string): seq<string> {
    Emit("", Pack(ReplyLines(msg, limit, delimiter)))
  }

  /** A server command queued for the next frame, to one client or to all. */
  datatype Task = Task(target: Option<int>, message: string)

  function Addressees(recipients: Option<seq<int>>): seq<Option<int>> {
    match recipients
    case None => [None]
    case Some(cids) => seq(|cids|, i requires 0 <= i < |cids| => Some(cids[i]))
  }

  function TasksFor(targets: seq<Option<int>>, message: string): seq<Task> {
    seq(|targets|, i requires 0 <= i < |targets| => Task(targets[i], message))
  }

  function Tasks(targets: seq<Option<int>>, messages: seq<string>): seq<Task> {
    if messages == [] then [] else TasksFor(targets, messages[0]) + Tasks(targets, messages[1..])
  }

  lemma {:induction false} TasksStep(targets: seq<Option<int>>, message: string, messages: seq<string>)
    ensures Tasks(targets, [message] + messages) == TasksFor(targets, message) + Tasks(targets, messages)
  {}

  /** Queue one message for everybody addressed. */
  method Enqueue(tasks: seq<Task>, recipients: Option<seq<int>>, message: string) returns (queued: seq<Task>)
    ensures queued == tasks + TasksFor(Addressees(recipients), message)
    ensures recipients.None? ==> queued == tasks + [Task(None, message)]
    ensures recipients.Some? ==>
              && |queued| == |tasks| + |recipients.value|
              && forall i :: 0 <= i < |recipients.value| ==>
                   queued[|tasks| + i] == Task(Some(recipients.value[i]), message)
  {
    queued := tasks;
    match recipients {
      case None =>
        queued := queued + [Task(None, message)];
      case Some(cids) =>
        for i := 0 to |cids|
          invariant queued == tasks + TasksFor(Addressees(recipients), message)[..i]
        {
          queued := queued + [Task(Some(cids[i]), message)];
        }
    }
  }

  lemma TasksExtend(targets: seq<Option<int>>, messages: seq<string>, message: string)
    ensures Tasks(targets, messages + [message]) == Tasks(targets, messages) + TasksFor(targets, message)
  {
    if messages == [] {
      TasksStep(targets, message, []);
      assert [] + [message] == [message];
    } else {
      TasksExtend(targets, messages[1..], message);
      assert messages + [message] == [messages[0]] + (messages[1..] + [message]);
      TasksStep(targets, messages[0], messages[1..] + [message]);
    }
  }

  lemma EmitStep(color: string, messages: seq<string>)
    requires messages != []
    ensures Emit(color, messages) == [color + messages[0]] + Emit(EndColor(color, messages[0]), messages[1..])
  {}

  /** The loop over the packed messages. */
  method SendAll(joinedMsgs: seq<string>, recipients: Option<seq<int>>) returns (tasks: seq<Task>)
    ensures tasks == Tasks(Addressees(recipients), Emit("", joinedMsgs))
  {
    var lastColor := "";
    tasks := [];
    ghost var sent: seq<string> := [];
    for k := 0 to |joinedMsgs|
      invariant IsColor(lastColor)
      invariant tasks == Tasks(Addressees(recipients), sent)
      invariant Emit("", joinedMsgs) == sent + Emit(lastColor, joinedMsgs[k..])
    {
      var s := joinedMsgs[k];
      var message := lastColor + s;
      EmitStep(lastColor, joinedMsgs[k..]);
      assert joinedMsgs[k..][1..] == joinedMsgs[k + 1..];
      Associative(sent, [message], Emit(EndColor(lastColor, s), joinedMsgs[k + 1..]));
      TasksExtend(Addressees(recipients), sent, message);
      tasks := Enqueue(tasks, recipients, message);
      sent := sent + [message];
      NextColor(lastColor, s);
      EndColorIsColor(lastColor, s);
      var colorTags := FindTags(message);
      if colorTags != [] {
        lastColor := colorTags[|colorTags| - 1];
      }
    }
    assert Emit("", joinedMsgs) == sent;
  }

  method Reply(msg: string, limit: i32, delimiter: string, recipients: Option<seq<int>>)
    returns (tasks: seq<Task>)
    ensures tasks == Tasks(Addressees(recipients), ReplyMessages(msg, limit, delimiter))
  {
    var cleanedMsg := Clean(msg);
    var splitMsgs := SplitLongLines(cleanedMsg, limit, delimiter);
    var joinedMsgs := PackLines(splitMsgs);
    tasks := SendAll(joinedMsgs, recipients);
  }
}
