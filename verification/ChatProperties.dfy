/** What splitting and packing guarantee: nothing is lost, sizes are bounded, no fewer pieces would do. */
module ChatProperties {
  import opened Machine
  import opened Text
  import opened Greedy
  import opened Chat

  // ---------- conservation ----------

  lemma {:induction false} ConcatEachConcat(groups: seq<seq<string>>)
    ensures Concat(ConcatEach(groups)) == Concat(Flatten(groups))
  {
    if groups != [] {
      ConcatEachConcat(groups[1..]);
      assert ConcatEach(groups)[1..] == ConcatEach(groups[1..]);
      ConcatAppend(groups[0], Flatten(groups[1..]));
    }
  }

  /** The chunks of a line put together again are the line. */
  lemma ChunksKeepLine(line: string, limit: nat, delimiter: string)
    ensures Concat(LineChunks(line, limit, delimiter)) == line
  {
    if ByteLen(line) <= limit {
      assert [line][1..] == [];
    } else {
      var items := Items(line, delimiter);
      ItemsCut(line, delimiter);
      GroupsAreGreedy(items, 0, limit);
      ConcatEachConcat(Groups(items, 0, limit));
    }
  }

  lemma {:induction false} JoinEachJoin(groups: seq<seq<string>>)
    requires forall i :: 0 <= i < |groups| ==> groups[i] != []
    ensures Join(JoinEach(groups), '\n') == Join(Flatten(groups), '\n')
  {
    if |groups| == 1 {
      assert groups == [groups[0]] && Flatten(groups[1..]) == [];
      assert groups[0] + [] == groups[0];
    } else if |groups| > 1 {
      var rest := groups[1..];
      JoinEachJoin(rest);
      assert JoinEach(groups)[1..] == JoinEach(rest);
      assert rest[0] != [];
      JoinAppend(groups[0], Flatten(rest), '\n');
    }
  }

  /** The packed messages, one below the other, are the split lines, one below the other. */
  lemma PackKeepsText(lines: seq<string>)
    ensures Join(Pack(lines), '\n') == Join(lines, '\n')
  {
    var groups := Groups(lines, 1, MAX_MSG_LENGTH + 1);
    GroupsAreGreedy(lines, 1, MAX_MSG_LENGTH + 1);
    forall i | 0 <= i < |groups|
      ensures groups[i] != []
    {
      assert Admissible(groups[i], 1, MAX_MSG_LENGTH + 1);
    }
    JoinEachJoin(groups);
  }

  function WithoutNewlines(s: string): string {
    if s == "" then "" else (if s[0] == '\n' then "" else [s[0]]) + WithoutNewlines(s[1..])
  }

  lemma {:induction false} WithoutNewlinesAppend(a: string, b: string)
    ensures WithoutNewlines(a + b) == WithoutNewlines(a) + WithoutNewlines(b)
  {
    if a == "" {
      assert a + b == b;
    } else {
      assert (a + b)[1..] == a[1..] + b;
      WithoutNewlinesAppend(a[1..], b);
      Associative(if a[0] == '\n' then "" else [a[0]], WithoutNewlines(a[1..]), WithoutNewlines(b));
    }
  }

  lemma {:induction false} JoinWithoutNewlines(parts: seq<string>)
    ensures WithoutNewlines(Join(parts, '\n')) == WithoutNewlines(Concat(parts))
  {
    if |parts| == 1 {
      assert Concat(parts[1..]) == "";
      assert parts[0] + "" == parts[0];
    } else if |parts| > 1 {
      JoinWithoutNewlines(parts[1..]);
      WithoutNewlinesAppend(parts[0] + ['\n'], Join(parts[1..], '\n'));
      WithoutNewlinesAppend(parts[0], ['\n']);
      assert ['\n'][1..] == "" && WithoutNewlines(['\n']) == "";
      WithoutNewlinesAppend(parts[0], Concat(parts[1..]));
    }
  }

  lemma {:induction false} ChunkListsConcat(lines: seq<string>, limit: nat, delimiter: string)
    ensures Concat(AllChunks(lines, limit, delimiter)) == Concat(lines)
  {
    if lines != [] {
      var lists := ChunkLists(lines, limit, delimiter);
      ChunkListsConcat(lines[1..], limit, delimiter);
      assert lists[1..] == ChunkLists(lines[1..], limit, delimiter);
      ConcatAppend(lists[0], Flatten(lists[1..]));
      ChunksKeepLine(lines[0], limit, delimiter);
    }
  }

  /** End to end: the packed messages hold the cleaned text, in order and nothing else,
      up to where lines are broken. */
  lemma ReplyKeepsText(msg: string, limit: i32, delimiter: string)
    ensures WithoutNewlines(Concat(Pack(ReplyLines(msg, limit, delimiter)))) == WithoutNewlines(Clean(msg))
  {
    var lines := Split(Clean(msg), '\n');
    var chunks := ReplyLines(msg, limit, delimiter);
    PackKeepsText(chunks);
    JoinWithoutNewlines(Pack(chunks));
    JoinWithoutNewlines(chunks);
    ChunkListsConcat(lines, AsUsize(limit), delimiter);
    JoinWithoutNewlines(lines);
    JoinSplit(Clean(msg), '\n');
  }

  // ---------- chunks ----------

  /** Items that follow one another within a line are the items of the chunk they make up. */
  lemma {:induction false} SliceItems(items: seq<string>, group: seq<string>, lo: nat, delimiter: string)
    requires AllItems(items, delimiter)
    requires lo + |group| <= |items| && group == items[lo..lo + |group|]
    ensures Items(Concat(group), delimiter) == group
  {
    forall i | 0 <= i < |group|
      ensures IsItem(group[i], delimiter, i == |group| - 1)
    {
      assert IsItem(items[lo + i], delimiter, lo + i == |items| - 1);
    }
    ItemsUnique(group, delimiter);
  }

  /** Where the k-th group starts. */
  function Offset(groups: seq<seq<string>>, k: nat): nat
    requires k <= |groups|
  {
    if k == 0 then 0 else |groups[0]| + Offset(groups[1..], k - 1)
  }

  lemma {:induction false} GroupIsSlice(groups: seq<seq<string>>, k: nat)
    requires k < |groups|
    ensures Offset(groups, k) + |groups[k]| <= |Flatten(groups)|
    ensures groups[k] == Flatten(groups)[Offset(groups, k)..Offset(groups, k) + |groups[k]|]
    decreases k
  {
    if k > 0 {
      GroupIsSlice(groups[1..], k - 1);
      var o := Offset(groups[1..], k - 1);
      var all, rest := Flatten(groups), Flatten(groups[1..]);
      assert all[|groups[0]| + o..|groups[0]| + o + |groups[k]|] == rest[o..o + |groups[k]|];
    }
  }

  lemma SliceOf(groups: seq<seq<string>>, k: nat) returns (lo: nat)
    requires k < |groups|
    ensures lo + |groups[k]| <= |Flatten(groups)|
    ensures groups[k] == Flatten(groups)[lo..lo + |groups[k]|]
  {
    GroupIsSlice(groups, k);
    lo := Offset(groups, k);
  }

  /** Each chunk of a long line is within the limit or is exactly one item, and no chunk has room for
      the first item of the chunk behind it. */
  lemma {:induction false} ChunksAreFull(line: string, limit: nat, delimiter: string, k: nat)
    requires ByteLen(line) > limit && k < |LineChunks(line, limit, delimiter)|
    ensures var chunks := LineChunks(line, limit, delimiter);
            && chunks[k] != ""
            && (ByteLen(chunks[k]) <= limit || |Items(chunks[k], delimiter)| == 1)
            && (k + 1 < |chunks| ==>
                  && chunks[k + 1] != ""
                  && ByteLen(chunks[k]) + ByteLen(Items(chunks[k + 1], delimiter)[0]) > limit)
  {
    var items := Items(line, delimiter);
    var groups := Groups(items, 0, limit);
    GroupsAreGreedy(items, 0, limit);
    ChunkItems(line, limit, delimiter, k);
    ConcatCost(groups[k]);
    assert Admissible(groups[k], 0, limit);
    if k + 1 < |groups| {
      ChunkItems(line, limit, delimiter, k + 1);
      assert Admissible(groups[k + 1], 0, limit);
      ExtendGroup(groups[k], groups[k + 1][0]);
    }
  }

  lemma {:induction false} ChunkItems(line: string, limit: nat, delimiter: string, k: nat)
    requires ByteLen(line) > limit && k < |LineChunks(line, limit, delimiter)|
    ensures Items(LineChunks(line, limit, delimiter)[k], delimiter) == Groups(Items(line, delimiter), 0, limit)[k]
    ensures LineChunks(line, limit, delimiter)[k] != ""
  {
    var items := Items(line, delimiter);
    ItemsCut(line, delimiter);
    GroupsAreGreedy(items, 0, limit);
    GroupKeepsItems(items, Groups(items, 0, limit), limit, delimiter, k);
  }

  lemma {:induction false} GroupKeepsItems(items: seq<string>, groups: seq<seq<string>>, limit: nat, delimiter: string, k: nat)
    requires AllItems(items, delimiter) && Flatten(groups) == items && AllAdmissible(groups, 0, limit)
    requires k < |groups|
    ensures Items(Concat(groups[k]), delimiter) == groups[k] && Concat(groups[k]) != ""
  {
    var lo := SliceOf(groups, k);
    assert Admissible(groups[k], 0, limit);
    SliceItems(items, groups[k], lo, delimiter);
  }

  predicate AllWithin(texts: seq<string>, limit: nat) {
    forall i :: 0 <= i < |texts| ==> ByteLen(texts[i]) <= limit
  }

  /** Every chunk is within the limit exactly when the line is, or each of its items is. */
  lemma ChunksFitExactly(line: string, limit: nat, delimiter: string)
    ensures AllWithin(LineChunks(line, limit, delimiter), limit)
       <==> ByteLen(line) <= limit || AllWithin(Items(line, delimiter), limit)
  {
    if ByteLen(line) > limit {
      var items := Items(line, delimiter);
      var groups := Groups(items, 0, limit);
      var chunks := LineChunks(line, limit, delimiter);
      GroupsFitExactly(items, 0, limit);
      forall k | 0 <= k < |groups|
        ensures Cost(groups[k], 0) == ByteLen(chunks[k])
      {
        ConcatCost(groups[k]);
      }
      assert AllFit(groups, 0, limit) <==> AllWithin(chunks, limit);
      assert EachFits(items, 0, limit) <==> AllWithin(items, limit);
    }
  }

  /** A line stays in one piece exactly when it has at most `limit` bytes or is a single item. */
  lemma {:induction false} LineKeptExactly(line: string, limit: nat, delimiter: string)
    ensures LineChunks(line, limit, delimiter) == [line] <==>
            ByteLen(line) <= limit || |Items(line, delimiter)| == 1
  {
    if ByteLen(line) > limit {
      var items := Items(line, delimiter);
      var groups := Groups(items, 0, limit);
      ItemsCut(line, delimiter);
      if |items| == 1 {
        GroupsOfAdmissible(items, 0, limit);
        assert LineChunks(line, limit, delimiter)[0] == line;
      } else if LineChunks(line, limit, delimiter) == [line] {
        ChunksAreFull(line, limit, delimiter, 0);
        assert false;
      }
    }
  }

  /** Two items that do not fit together are two groups. */
  lemma {:induction false} PairGroups(first: string, second: string, limit: nat)
    requires first != "" && second != "" && ByteLen(first) + ByteLen(second) > limit
    ensures Groups([first, second], 0, limit) == [[first], [second]]
  {
    var items, groups := [first, second], [[first], [second]];
    assert Flatten(groups) == items by {
      assert groups[1..] == [[second]] && groups[1..][1..] == [];
      assert Flatten(groups[1..]) == [second];
    }
    assert [first] + [second] == items;
    ConcatCost(items);
    ConcatTwo(first, second);
    ByteLenConcat(first, second);
    GreedyIsUnique(groups, items, 0, limit);
  }

  lemma ConcatEachPair(first: string, second: string)
    ensures ConcatEach([[first], [second]]) == [first, second]
  {
    ConcatOne(first);
    ConcatOne(second);
  }

  lemma {:induction false} PairChunks(first: string, second: string, limit: nat, delimiter: string)
    requires first != "" && second != "" && Items(first + second, delimiter) == [first, second]
    requires ByteLen(first) + ByteLen(second) > limit
    ensures LineChunks(first + second, limit, delimiter) == [first, second]
  {
    ByteLenConcat(first, second);
    PairGroups(first, second, limit);
    ConcatEachPair(first, second);
  }

  /** The limit counts bytes: two accented letters and a blank are three characters, but with a limit of three
      they are split. */
  lemma {:induction false} LimitCountsBytes()
    ensures var line := "\U{E9} \U{E9}"; |line| == 3 && LineChunks(line, 3, " ") == ["\U{E9} ", "\U{E9}"]
  {
    var first, second := "\U{E9} ", "\U{E9}";
    assert first[1..] == " " && second[1..] == "" && " "[1..] == "";
    assert ByteLen(first) == 3 && ByteLen(second) == 2;
    assert AllItems([first, second], " ") by {
      assert first[1..2] == " ";
      assert IsItem(first, " ", false) && IsItem(second, " ", true);
    }
    ItemsUnique([first, second], " ");
    ConcatTwo(first, second);
    PairChunks(first, second, 3, " ");
    assert first + second == "\U{E9} \U{E9}";
  }

  /** An item is never cut: with a limit of two, a word of three characters is one chunk. */
  lemma {:induction false} ChunkExceedsLimit()
    ensures LineChunks("abc", 2, " ") == ["abc"] && !AllWithin(LineChunks("abc", 2, " "), 2)
  {
    var line := "abc";
    assert line[1..][1..] == "c" && "c"[1..] == "";
    assert ByteLen(line) == 3;
    assert AllItems([line], " ") by {
      assert IsItem(line, " ", true) by {
        assert line[0..1] == "a" && line[1..2] == "b";
      }
    }
    ItemsUnique([line], " ");
    ConcatOne(line);
    LineKeptExactly(line, 2, " ");
    assert ByteLen([line][0]) == 3;
  }

  /** No other way of cutting a line at item boundaries into pieces within the limit uses fewer pieces. */
  lemma {:induction false} ChunksAreFewest(line: string, limit: nat, delimiter: string, pieces: seq<seq<string>>)
    requires line != "" && Flatten(pieces) == Items(line, delimiter)
    requires forall i :: 0 <= i < |pieces| ==> ByteLen(Concat(pieces[i])) <= limit
    ensures |LineChunks(line, limit, delimiter)| <= |pieces|
  {
    forall i | 0 <= i < |pieces|
      ensures Cost(pieces[i], 0) <= limit
    {
      ConcatCost(pieces[i]);
    }
    GreedyIsOptimal(Items(line, delimiter), pieces, 0, limit);
  }

  /** A negative limit never splits a text that can exist in memory. */
  lemma NegativeLimitKeepsLines(msg: string, limit: i32, delimiter: string)
    requires limit < 0 && ByteLen(msg) < TWO_TO_THE_64 / 2
    ensures AllChunks(Split(msg, '\n'), AsUsize(limit), delimiter) == Split(msg, '\n')
  {
    var lines := Split(msg, '\n');
    JoinSplit(msg, '\n');
    PartsAreShorter(lines, '\n');
    ChunksOfShortLines(lines, AsUsize(limit), delimiter);
  }

  lemma {:induction false} PartsAreShorter(parts: seq<string>, sep: char)
    ensures forall i :: 0 <= i < |parts| ==> ByteLen(parts[i]) <= ByteLen(Join(parts, sep))
  {
    if |parts| > 1 {
      PartsAreShorter(parts[1..], sep);
      ByteLenConcat(parts[0] + [sep], Join(parts[1..], sep));
      ByteLenConcat(parts[0], [sep]);
      forall i | 0 <= i < |parts|
        ensures ByteLen(parts[i]) <= ByteLen(Join(parts, sep))
      {
        if i > 0 { assert parts[i] == parts[1..][i - 1]; }
      }
    }
  }

  lemma {:induction false} ChunksOfShortLines(lines: seq<string>, limit: nat, delimiter: string)
    requires forall i :: 0 <= i < |lines| ==> ByteLen(lines[i]) <= limit
    ensures AllChunks(lines, limit, delimiter) == lines
  {
    if lines != [] {
      ChunksOfShortLines(lines[1..], limit, delimiter);
      assert ChunkLists(lines, limit, delimiter)[1..] == ChunkLists(lines[1..], limit, delimiter);
      assert lines == [lines[0]] + lines[1..];
    }
  }

  // ---------- messages ----------

  /** Each packed message has at most 1000 bytes or is exactly one split line, and no message has room
      for the first line of the message behind it. */
  lemma MessagesAreFull(lines: seq<string>, k: nat)
    requires NoneContains(lines, '\n') && k < |Pack(lines)|
    ensures var messages := Pack(lines);
            && (ByteLen(messages[k]) <= 1000 || messages[k] in lines)
            && (k + 1 < |messages| ==>
                  ByteLen(messages[k] + "\n" + Split(messages[k + 1], '\n')[0]) > 1000)
  {
    var cap := MAX_MSG_LENGTH + 1;
    var groups := Groups(lines, 1, cap);
    GroupsAreGreedy(lines, 1, cap);
    assert Admissible(groups[k], 1, cap);
    JoinCost(groups[k]);
    GroupIsSlice(groups, k);
    if |groups[k]| == 1 {
      assert groups[k][0] in lines;
    }
    if k + 1 < |groups| {
      assert Admissible(groups[k + 1], 1, cap);
      ExtendMessage(groups[k], groups[k + 1][0]);
      GroupIsSlice(groups, k + 1);
      SplitJoin(groups[k + 1], '\n');
    }
  }

  /** Every packed message has at most 1000 bytes exactly when every split line has. */
  lemma MessagesFitExactly(lines: seq<string>)
    ensures AllWithin(Pack(lines), 1000) <==> AllWithin(lines, 1000)
  {
    var cap := MAX_MSG_LENGTH + 1;
    var groups, messages := Groups(lines, 1, cap), Pack(lines);
    GroupsFitExactly(lines, 1, cap);
    GroupsAreGreedy(lines, 1, cap);
    forall k | 0 <= k < |groups|
      ensures Cost(groups[k], 1) == ByteLen(messages[k]) + 1
    {
      assert Admissible(groups[k], 1, cap);
      JoinCost(groups[k]);
    }
    assert AllFit(groups, 1, cap) <==> AllWithin(messages, MAX_MSG_LENGTH);
    assert EachFits(lines, 1, cap) <==> AllWithin(lines, MAX_MSG_LENGTH);
  }

  /** No lines make no message, and any lines at least one. */
  lemma PackIsEmpty(lines: seq<string>)
    ensures Pack(lines) == [] <==> lines == []
  {
    GroupsAreGreedy(lines, 1, MAX_MSG_LENGTH + 1);
  }

  /** Every reply sends something, that to the empty text too. */
  lemma {:induction false} EveryReplyIsSent(msg: string, limit: i32, delimiter: string)
    ensures ReplyMessages(msg, limit, delimiter) != []
    ensures msg == "" && limit >= 0 ==> ReplyMessages(msg, limit, delimiter) == [""]
  {
    var lines := Split(Clean(msg), '\n');
    var first := LineChunks(lines[0], AsUsize(limit), delimiter);
    ChunksKeepLine(lines[0], AsUsize(limit), delimiter);
    assert first != [];
    assert ChunkLists(lines, AsUsize(limit), delimiter)[0] == first;
    PackIsEmpty(ReplyLines(msg, limit, delimiter));
    if msg == "" && limit >= 0 {
      ChunksOfShortLines([""], AsUsize(limit), delimiter);
      PackOne("");
    }
  }

  lemma {:induction false} PackOne(line: string)
    ensures Pack([line]) == [line]
  {
    var groups := [[line]];
    assert groups[1..] == [] && [line] + [] == [line];
    assert Flatten(groups) == [line];
    GreedyIsUnique(groups, [line], 1, MAX_MSG_LENGTH + 1);
  }

  /** No other grouping of consecutive lines into messages of at most 1000 bytes uses fewer messages. */
  lemma {:induction false} MessagesAreFewest(lines: seq<string>, others: seq<seq<string>>)
    requires Flatten(others) == lines
    requires forall i :: 0 <= i < |others| ==> others[i] != [] && ByteLen(Join(others[i], '\n')) <= 1000
    ensures |Pack(lines)| <= |others|
  {
    forall i | 0 <= i < |others|
      ensures Cost(others[i], 1) <= MAX_MSG_LENGTH + 1
    {
      JoinCost(others[i]);
    }
    GreedyIsOptimal(lines, others, 1, MAX_MSG_LENGTH + 1);
  }

  // ---------- recipients ----------

  /** The messages queued for one target, in order. */
  function MessagesTo(target: Option<int>, tasks: seq<Task>): seq<string> {
    if tasks == [] then []
    else (if tasks[0].target == target then [tasks[0].message] else []) + MessagesTo(target, tasks[1..])
  }

  lemma {:induction false} MessagesToAppend(target: Option<int>, a: seq<Task>, b: seq<Task>)
    ensures MessagesTo(target, a + b) == MessagesTo(target, a) + MessagesTo(target, b)
  {
    if a == [] {
      assert a + b == b;
    } else {
      assert (a + b)[1..] == a[1..] + b;
      MessagesToAppend(target, a[1..], b);
    }
  }

  /** Each message `n` times in a row. */
  function RepeatEach(messages: seq<string>, n: nat): seq<string> {
    if messages == [] then [] else seq(n, _ => messages[0]) + RepeatEach(messages[1..], n)
  }

  lemma {:induction false} MessagesOfRound(target: Option<int>, targets: seq<Option<int>>, message: string)
    ensures MessagesTo(target, TasksFor(targets, message)) == seq(multiset(targets)[target], _ => message)
  {
    if targets != [] {
      var rest := targets[1..];
      assert TasksFor(targets, message)[1..] == TasksFor(rest, message);
      MessagesOfRound(target, rest, message);
      CountCons(target, targets);
      OneMore(message, multiset(rest)[target]);
    }
  }

  lemma CountCons(target: Option<int>, targets: seq<Option<int>>)
    requires targets != []
    ensures multiset(targets)[target] == (if targets[0] == target then 1 else 0) + multiset(targets[1..])[target]
  {
    assert targets == [targets[0]] + targets[1..];
  }

  lemma OneMore(message: string, n: nat)
    ensures [message] + seq(n, _ => message) == seq(1 + n, _ => message)
    ensures [] + seq(n, _ => message) == seq(n, _ => message)
  {}

  /** Every recipient gets each message of the reply as often as its id occurs, all messages in order, and
      nobody else gets any. */
  lemma {:induction false} RecipientsGetEverything(target: Option<int>, targets: seq<Option<int>>, messages: seq<string>)
    ensures MessagesTo(target, Tasks(targets, messages)) == RepeatEach(messages, multiset(targets)[target])
  {
    if messages != [] {
      MessagesToAppend(target, TasksFor(targets, messages[0]), Tasks(targets, messages[1..]));
      MessagesOfRound(target, targets, messages[0]);
      RecipientsGetEverything(target, targets, messages[1..]);
    }
  }

  /** Once is once. */
  lemma {:induction false} RepeatOnce(messages: seq<string>)
    ensures RepeatEach(messages, 1) == messages
  {
    if messages != [] {
      RepeatOnce(messages[1..]);
      assert messages == [messages[0]] + messages[1..];
    }
  }

  /** A reply to all reaches all, once, and no single client. */
  lemma {:induction false} BroadcastReachesAll(messages: seq<string>, cid: int)
    ensures var tasks := Tasks(Addressees(None), messages);
            && |tasks| == |messages|
            && (forall k :: 0 <= k < |messages| ==> tasks[k] == Task(None, messages[k]))
            && MessagesTo(None, tasks) == messages
            && MessagesTo(Some(cid), tasks) == []
  {
    assert Addressees(None) == [None];
    QueueOrder([None], messages);
    forall k | 0 <= k < |messages|
      ensures Tasks([None], messages)[k] == Task(None, messages[k])
    {
      assert Tasks([None], messages)[k * 1 + 0] == Task([None][0], messages[k]);
    }
    RecipientsGetEverything(None, [None], messages);
    RepeatOnce(messages);
    RecipientsGetEverything(Some(cid), [None], messages);
    RepeatNever(messages);
  }

  /** A private reply is never sent to all; a client gets each message as often as its id is among the recipients;
      and the queue holds the messages in order, each for all recipients in order. */
  lemma {:induction false} PrivateReplyStaysPrivate(cids: seq<int>, messages: seq<string>, cid: int)
    ensures var tasks := Tasks(Addressees(Some(cids)), messages);
            && |tasks| == |messages| * |cids|
            && (forall k, i :: 0 <= k < |messages| && 0 <= i < |cids| ==>
                  tasks[Position(k, |messages|, i, |cids|)] == Task(Some(cids[i]), messages[k]))
            && MessagesTo(None, tasks) == []
            && MessagesTo(Some(cid), tasks) == RepeatEach(messages, multiset(cids)[cid])
  {
    var targets := Addressees(Some(cids));
    QueueOrder(targets, messages);
    TimesAddressed(cids, cid);
    RecipientsGetEverything(None, targets, messages);
    RepeatNever(messages);
    RecipientsGetEverything(Some(cid), targets, messages);
  }

  lemma {:induction false} TimesAddressed(cids: seq<int>, cid: int)
    ensures multiset(Addressees(Some(cids)))[Some(cid)] == multiset(cids)[cid]
    ensures multiset(Addressees(Some(cids)))[None] == 0
  {
    if cids != [] {
      var init, last := cids[..|cids| - 1], cids[|cids| - 1];
      assert cids == init + [last];
      assert Addressees(Some(cids)) == Addressees(Some(init)) + [Some(last)];
      TimesAddressed(init, cid);
    }
  }

  /** Where the i-th of `m` targets of the k-th of `n` messages stands in the queue. */
  function Position(k: nat, n: nat, i: nat, m: nat): (p: nat)
    requires k < n && i < m
    ensures p == k * m + i && p < n * m
  {
    assert (k + 1) * m <= n * m;
    k * m + i
  }

  lemma {:induction false} QueueOrder(targets: seq<Option<int>>, messages: seq<string>)
    ensures var tasks := Tasks(targets, messages);
            && |tasks| == |messages| * |targets|
            && (forall k, i :: 0 <= k < |messages| && 0 <= i < |targets| ==>
                  tasks[Position(k, |messages|, i, |targets|)] == Task(targets[i], messages[k]))
  {
    if messages != [] {
      var rest, m := messages[1..], |targets|;
      QueueOrder(targets, rest);
      assert |messages| * m == m + |rest| * m;
      forall k, i | 0 <= k < |messages| && 0 <= i < m
        ensures Tasks(targets, messages)[Position(k, |messages|, i, m)] == Task(targets[i], messages[k])
      {
        if k > 0 {
          assert Position(k, |messages|, i, m) == m + Position(k - 1, |rest|, i, m);
        }
      }
    }
  }

  lemma {:induction false} RepeatNever(messages: seq<string>)
    ensures RepeatEach(messages, 0) == []
  {
    if messages != [] {
      RepeatNever(messages[1..]);
    }
  }
}
