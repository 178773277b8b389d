/** Colours survive the splitting of a reply: each message shows every character in the colour it has in
    the whole text, exactly when no line is cut in the middle of a colour tag. */
module ChatColors {
  import opened Machine
  import opened Text
  import opened Color
  import opened Greedy
  import opened Chat
  import opened ChatProperties

  // ---------- showing several texts ----------

  /** Each text shown on its own, starting in the default colour. */
  function PaintAll(texts: seq<string>): seq<Glyph> {
    if texts == [] then [] else Paint("", texts[0]) + PaintAll(texts[1..])
  }

  /** The texts shown one after the other, each starting in the colour the previous one ends in. */
  function PaintSeq(color: string, texts: seq<string>): seq<Glyph>
    decreases |texts|
  {
    if texts == [] then [] else Paint(color, texts[0]) + PaintSeq(EndColor(color, texts[0]), texts[1..])
  }

  function EndColorSeq(color: string, texts: seq<string>): string
    decreases |texts|
  {
    if texts == [] then color else EndColorSeq(EndColor(color, texts[0]), texts[1..])
  }

  /** The visible characters other than line breaks. */
  function Ink(glyphs: seq<Glyph>): seq<Glyph> {
    if glyphs == [] then []
    else (if glyphs[0].ch == '\n' then [] else [glyphs[0]]) + Ink(glyphs[1..])
  }

  lemma {:induction false} InkAppend(a: seq<Glyph>, b: seq<Glyph>)
    ensures Ink(a + b) == Ink(a) + Ink(b)
  {
    if a == [] {
      assert a + b == b;
    } else {
      assert (a + b)[1..] == a[1..] + b;
      InkAppend(a[1..], b);
      Associative(if a[0].ch == '\n' then [] else [a[0]], Ink(a[1..]), Ink(b));
    }
  }

  lemma {:induction false} InkOfText(color: string, s: string)
    requires '\n' !in s
    ensures Ink(Paint(color, s)) == Paint(color, s)
    decreases |s|
  {
    if s != "" {
      if TagAt(s, 0) {
        InkOfText(s[..2], s[2..]);
      } else {
        assert s[0] in s;
        InkOfText(color, s[1..]);
        assert Paint(color, s)[1..] == Paint(color, s[1..]);
      }
    }
  }

  lemma {:induction false} InkOfTexts(color: string, texts: seq<string>)
    requires NoneContains(texts, '\n')
    ensures Ink(PaintSeq(color, texts)) == PaintSeq(color, texts)
    decreases |texts|
  {
    if texts != [] {
      InkOfText(color, texts[0]);
      InkOfTexts(EndColor(color, texts[0]), texts[1..]);
      InkAppend(Paint(color, texts[0]), PaintSeq(EndColor(color, texts[0]), texts[1..]));
    }
  }

  // ---------- line breaks never cut a tag ----------

  lemma PaintNewline(color: string)
    ensures Paint(color, "\n") == [Glyph(color, '\n')] && EndColor(color, "\n") == color
    ensures Ink(Paint(color, "\n")) == []
  {}

  lemma PaintBreak(color: string, x: string)
    ensures Ink(Paint(color, x + "\n")) == Ink(Paint(color, x))
    ensures EndColor(color, x + "\n") == EndColor(color, x)
  {
    var c := EndColor(color, x);
    PaintConcat(color, x, "\n");
    PaintNewline(c);
    InkAppend(Paint(color, x), Paint(c, "\n"));
  }

  lemma PaintLine(color: string, x: string, y: string)
    ensures Ink(Paint(color, x + "\n" + y)) == Ink(Paint(color, x)) + Ink(Paint(EndColor(color, x), y))
    ensures EndColor(color, x + "\n" + y) == EndColor(EndColor(color, x), y)
  {
    var line := x + "\n";
    PaintBreak(color, x);
    assert line[|line| - 1] == '\n';
    PaintConcat(color, line, y);
    InkAppend(Paint(color, line), Paint(EndColor(color, x), y));
  }

  /** Showing texts one below the other is showing them one after the other. */
  lemma {:induction false} PaintJoined(color: string, texts: seq<string>)
    ensures Ink(Paint(color, Join(texts, '\n'))) == Ink(PaintSeq(color, texts))
    ensures EndColor(color, Join(texts, '\n')) == EndColorSeq(color, texts)
    decreases |texts|
  {
    if |texts| == 1 {
      assert texts[1..] == [] && Paint(color, texts[0]) + [] == Paint(color, texts[0]);
    } else if |texts| > 1 {
      var x, y, c := texts[0], Join(texts[1..], '\n'), EndColor(color, texts[0]);
      PaintJoined(c, texts[1..]);
      assert Join(texts, '\n') == x + "\n" + y;
      PaintLine(color, x, y);
      InkAppend(Paint(color, x), PaintSeq(c, texts[1..]));
    }
  }

  // ---------- the colour carried from message to message ----------

  /** Before message k the carried colour is the last tag of everything earlier. */
  lemma {:induction false} CarriedColor(color: string, messages: seq<string>, k: nat)
    requires k < |messages|
    ensures |Emit(color, messages)| == |messages|
    ensures Emit(color, messages)[k] == EndColor(color, Join(messages[..k], '\n')) + messages[k]
    decreases k
  {
    EmitLength(color, messages);
    if k > 0 {
      var c := EndColor(color, messages[0]);
      CarriedColor(c, messages[1..], k - 1);
      assert Emit(color, messages)[k] == Emit(c, messages[1..])[k - 1];
      PaintJoined(color, messages[..k]);
      PaintJoined(c, messages[1..][..k - 1]);
      assert messages[..k][1..] == messages[1..][..k - 1];
    }
  }

  lemma {:induction false} EmitLength(color: string, messages: seq<string>)
    ensures |Emit(color, messages)| == |messages|
    decreases |messages|
  {
    if messages != [] {
      EmitLength(EndColor(color, messages[0]), messages[1..]);
    }
  }

  /** Shown separately, the emitted messages look like the packed messages shown one after the other. */
  lemma {:induction false} EmittedColors(color: string, messages: seq<string>)
    requires IsColor(color)
    ensures PaintAll(Emit(color, messages)) == PaintSeq(color, messages)
    decreases |messages|
  {
    if messages != [] {
      PaintPrefixed(color, messages[0]);
      EndColorIsColor(color, messages[0]);
      EmittedColors(EndColor(color, messages[0]), messages[1..]);
      assert Emit(color, messages)[1..] == Emit(EndColor(color, messages[0]), messages[1..]);
    }
  }

  /** The messages, each shown on its own, look like one pass over the split lines joined by newlines. */
  lemma MessagesShowLines(lines: seq<string>)
    ensures Ink(PaintAll(Emit("", Pack(lines)))) == Ink(Paint("", Join(lines, '\n')))
  {
    EmittedColors("", Pack(lines));
    PaintJoined("", Pack(lines));
    PackKeepsText(lines);
  }

  // ---------- chunks of a line ----------

  /** Some boundary between two pieces cuts a colour tag. */
  predicate CutsSomeTag(pieces: seq<string>) {
    exists i :: 0 <= i < |pieces| - 1 && CutsTag(pieces[i], pieces[i + 1])
  }

  predicate NoneEmpty(pieces: seq<string>) {
    forall i :: 0 <= i < |pieces| ==> pieces[i] != ""
  }

  lemma CutsSomeTagCons(pieces: seq<string>)
    requires |pieces| > 1 && NoneEmpty(pieces)
    ensures CutsSomeTag(pieces) <==> CutsTag(pieces[0], Concat(pieces[1..])) || CutsSomeTag(pieces[1..])
  {}

  /** Pieces that cut no tag look like the whole. */
  lemma {:induction false} UncutPieces(color: string, pieces: seq<string>)
    requires NoneEmpty(pieces) && !CutsSomeTag(pieces)
    ensures PaintSeq(color, pieces) == Paint(color, Concat(pieces))
    ensures EndColorSeq(color, pieces) == EndColor(color, Concat(pieces))
    decreases |pieces|
  {
    if |pieces| == 1 {
      OnePiece(color, pieces);
    } else if |pieces| > 1 {
      CutsSomeTagCons(pieces);
      UncutPieces(EndColor(color, pieces[0]), pieces[1..]);
      PaintConcat(color, pieces[0], Concat(pieces[1..]));
    }
  }

  lemma OnePiece(color: string, pieces: seq<string>)
    requires |pieces| == 1
    ensures Concat(pieces) == pieces[0] && PaintSeq(color, pieces) == Paint(color, pieces[0])
    ensures EndColorSeq(color, pieces) == EndColor(color, pieces[0])
  {}

  /** Each cut tag adds visible characters, whatever the colours. */
  lemma {:induction false} CutPieces(c: string, d: string, pieces: seq<string>)
    requires NoneEmpty(pieces)
    ensures |PaintSeq(c, pieces)| >= |Paint(d, Concat(pieces))|
    ensures CutsSomeTag(pieces) ==> |PaintSeq(c, pieces)| > |Paint(d, Concat(pieces))|
    decreases |pieces|
  {
    if |pieces| == 1 {
      OnePiece(c, pieces);
      PaintLength(c, d, pieces[0]);
    } else if |pieces| > 1 {
      var x, y := pieces[0], Concat(pieces[1..]);
      CutsSomeTagCons(pieces);
      CutPieces(EndColor(c, x), d, pieces[1..]);
      PaintLength(c, d, x);
      if CutsTag(x, y) {
        CutTagShows(d, x, y);
      } else {
        PaintConcat(d, x, y);
        PaintLength(EndColor(d, x), d, y);
      }
    }
  }

  // ---------- all lines of a text ----------

  lemma {:induction false} PaintSeqAppend(color: string, a: seq<string>, b: seq<string>)
    ensures PaintSeq(color, a + b) == PaintSeq(color, a) + PaintSeq(EndColorSeq(color, a), b)
    ensures EndColorSeq(color, a + b) == EndColorSeq(EndColorSeq(color, a), b)
    decreases |a|
  {
    if a == [] {
      assert a + b == b;
    } else {
      var c := EndColor(color, a[0]);
      assert (a + b)[1..] == a[1..] + b;
      PaintSeqAppend(c, a[1..], b);
      Associative(Paint(color, a[0]), PaintSeq(c, a[1..]), PaintSeq(EndColorSeq(color, a), b));
    }
  }

  /** `lists[i]` are the pieces of `lines[i]`; only an empty line has an empty piece. */
  predicate PiecesOf(lists: seq<seq<string>>, lines: seq<string>) {
    && |lists| == |lines|
    && forall i :: 0 <= i < |lines| ==> Concat(lists[i]) == lines[i] && (lists[i] == [lines[i]] || NoneEmpty(lists[i]))
  }

  predicate NoListCuts(lists: seq<seq<string>>) {
    forall i :: 0 <= i < |lists| ==> !CutsSomeTag(lists[i])
  }

  lemma {:induction false} UncutLists(color: string, lists: seq<seq<string>>, lines: seq<string>)
    requires PiecesOf(lists, lines) && NoListCuts(lists)
    ensures PaintSeq(color, Flatten(lists)) == PaintSeq(color, lines)
    decreases |lines|
  {
    if lines != [] {
      PaintSeqAppend(color, lists[0], Flatten(lists[1..]));
      if lists[0] == [lines[0]] {
        OnePiece(color, lists[0]);
      } else {
        UncutPieces(color, lists[0]);
      }
      UncutLists(EndColor(color, lines[0]), lists[1..], lines[1..]);
    }
  }

  lemma {:induction false} CutLists(c: string, d: string, lists: seq<seq<string>>, lines: seq<string>)
    requires PiecesOf(lists, lines)
    ensures |PaintSeq(c, Flatten(lists))| >= |PaintSeq(d, lines)|
    ensures !NoListCuts(lists) ==> |PaintSeq(c, Flatten(lists))| > |PaintSeq(d, lines)|
    decreases |lines|
  {
    if lines != [] {
      PaintSeqAppend(c, lists[0], Flatten(lists[1..]));
      if lists[0] == [lines[0]] {
        OnePiece(c, lists[0]);
        PaintLength(c, d, lines[0]);
      } else {
        CutPieces(c, d, lists[0]);
      }
      CutLists(EndColorSeq(c, lists[0]), EndColor(d, lines[0]), lists[1..], lines[1..]);
      if NoListCuts(lists[1..]) && !CutsSomeTag(lists[0]) {
        forall i | 0 <= i < |lists|
          ensures !CutsSomeTag(lists[i])
        {
          if i > 0 { assert lists[i] == lists[1..][i - 1]; }
        }
      }
    }
  }

  // ---------- the whole reply ----------

  lemma ChunkListsArePieces(lines: seq<string>, limit: nat, delimiter: string)
    ensures PiecesOf(ChunkLists(lines, limit, delimiter), lines)
  {
    var lists := ChunkLists(lines, limit, delimiter);
    forall i | 0 <= i < |lines|
      ensures Concat(lists[i]) == lines[i] && (lists[i] == [lines[i]] || NoneEmpty(lists[i]))
    {
      ChunksKeepLine(lines[i], limit, delimiter);
      if ByteLen(lines[i]) > limit {
        forall k | 0 <= k < |lists[i]|
          ensures lists[i][k] != ""
        {
          ChunkItems(lines[i], limit, delimiter, k);
        }
      }
    }
  }

  lemma {:induction false} CharInConcat(pieces: seq<string>, k: nat, c: char)
    requires k < |pieces| && c in pieces[k]
    ensures c in Concat(pieces)
    decreases k
  {
    if k > 0 {
      CharInConcat(pieces[1..], k - 1, c);
    }
  }

  lemma {:induction false} FlattenHasNone(lists: seq<seq<string>>, lines: seq<string>, sep: char)
    requires PiecesOf(lists, lines) && NoneContains(lines, sep)
    ensures NoneContains(Flatten(lists), sep)
  {
    if lists != [] {
      forall k | 0 <= k < |lists[0]|
        ensures sep !in lists[0][k]
      {
        if sep in lists[0][k] {
          CharInConcat(lists[0], k, sep);
          assert false;
        }
      }
      FlattenHasNone(lists[1..], lines[1..], sep);
    }
  }

  /** The split lines of a reply hold no line break of their own. */
  lemma ReplyLinesHaveNoBreak(msg: string, limit: i32, delimiter: string)
    ensures NoneContains(ReplyLines(msg, limit, delimiter), '\n')
  {
    var lines := Split(Clean(msg), '\n');
    JoinSplit(Clean(msg), '\n');
    ChunkListsArePieces(lines, AsUsize(limit), delimiter);
    FlattenHasNone(ChunkLists(lines, AsUsize(limit), delimiter), lines, '\n');
  }

  /** No line of the reply is cut in the middle of a colour tag. */
  predicate KeepsTags(msg: string, limit: i32, delimiter: string) {
    NoListCuts(ChunkLists(Split(Clean(msg), '\n'), AsUsize(limit), delimiter))
  }

  /** The reply looks like the cleaned text: the same characters in the same colours, up to line breaks. */
  predicate LooksTheSame(msg: string, limit: i32, delimiter: string) {
    Ink(PaintAll(ReplyMessages(msg, limit, delimiter))) == Ink(Paint("", Clean(msg)))
  }

  /** The reply looks like the text exactly when no line is cut in the middle of a colour tag; otherwise it
      shows more characters. */
  lemma {:induction false} ReplyKeepsColors(msg: string, limit: i32, delimiter: string)
    ensures LooksTheSame(msg, limit, delimiter) <==> KeepsTags(msg, limit, delimiter)
    ensures |Ink(PaintAll(ReplyMessages(msg, limit, delimiter)))| >= |Ink(Paint("", Clean(msg)))|
    ensures !KeepsTags(msg, limit, delimiter) ==>
              |Ink(PaintAll(ReplyMessages(msg, limit, delimiter)))| > |Ink(Paint("", Clean(msg)))|
  {
    var lines := Split(Clean(msg), '\n');
    var lists := ChunkLists(lines, AsUsize(limit), delimiter);
    var chunks := ReplyLines(msg, limit, delimiter);
    JoinSplit(Clean(msg), '\n');
    MessagesShowLines(chunks);
    PaintJoined("", chunks);
    ReplyLinesHaveNoBreak(msg, limit, delimiter);
    InkOfTexts("", chunks);
    PaintJoined("", lines);
    InkOfTexts("", lines);
    ChunkListsArePieces(lines, AsUsize(limit), delimiter);
    if NoListCuts(lists) {
      UncutLists("", lists, lines);
    } else {
      CutLists("", "", lists, lines);
    }
  }

  lemma {:induction false} InkOfCopies(message: string, n: nat)
    ensures |Ink(PaintAll(seq(n, _ => message)))| == n * |Ink(Paint("", message))|
  {
    if n > 0 {
      var copies := seq(n, _ => message);
      assert copies[1..] == seq(n - 1, _ => message);
      InkOfCopies(message, n - 1);
      InkAppend(Paint("", message), PaintAll(copies[1..]));
      assert n * |Ink(Paint("", message))| == (n - 1) * |Ink(Paint("", message))| + |Ink(Paint("", message))|;
    }
  }

  lemma {:induction false} PaintAllAppend(a: seq<string>, b: seq<string>)
    ensures PaintAll(a + b) == PaintAll(a) + PaintAll(b)
  {
    if a == [] {
      assert a + b == b;
    } else {
      assert (a + b)[1..] == a[1..] + b;
      PaintAllAppend(a[1..], b);
      Associative(Paint("", a[0]), PaintAll(a[1..]), PaintAll(b));
    }
  }

  /** Who gets every message `n` times sees `n` times as many characters. */
  lemma {:induction false} InkOfRepeats(messages: seq<string>, n: nat)
    ensures |Ink(PaintAll(RepeatEach(messages, n)))| == n * |Ink(PaintAll(messages))|
  {
    if messages != [] {
      var copies, rest := seq(n, _ => messages[0]), RepeatEach(messages[1..], n);
      InkOfRepeats(messages[1..], n);
      InkOfCopies(messages[0], n);
      PaintAllAppend(copies, rest);
      InkAppend(PaintAll(copies), PaintAll(rest));
      InkAppend(Paint("", messages[0]), PaintAll(messages[1..]));
      Distribute(n, |Ink(Paint("", messages[0]))|, |Ink(PaintAll(messages[1..]))|);
    }
  }

  lemma Distribute(n: nat, a: nat, b: nat)
    ensures n * (a + b) == n * a + n * b
  {}

  lemma ProductGrows(n: nat, a: nat)
    ensures n == 0 ==> n * a == 0
    ensures n >= 2 && a >= 1 ==> n * a > a
  {}

  /** What a recipient sees of the reply is the cleaned text if and only if it is addressed once and no tag is
      cut.  (A text without any visible character also looks the same when it is not sent, or sent repeatedly.) */
  lemma {:induction false} RecipientsSeeText(target: Option<int>, recipients: Option<seq<int>>,
                                             msg: string, limit: i32, delimiter: string)
    ensures var received := MessagesTo(target, Tasks(Addressees(recipients), ReplyMessages(msg, limit, delimiter)));
            var text, times := Ink(Paint("", Clean(msg))), Times(target, recipients);
            Ink(PaintAll(received)) == text <==>
            (times == 0 || KeepsTags(msg, limit, delimiter)) && (times == 1 || text == [])
  {
    var sent, times := ReplyMessages(msg, limit, delimiter), Times(target, recipients);
    var text, seen := Ink(Paint("", Clean(msg))), Ink(PaintAll(RepeatEach(sent, times)));
    ReceivedIs(target, recipients, sent);
    ReplyKeepsColors(msg, limit, delimiter);
    InkOfRepeats(sent, times);
    ProductGrows(times, |Ink(PaintAll(sent))|);
    if times == 0 {
      assert seen == [];
    } else if times == 1 {
      RepeatOnce(sent);
    } else if text == [] && KeepsTags(msg, limit, delimiter) {
      assert Ink(PaintAll(sent)) == [];
      assert |seen| == times * 0;
    }
  }

  /** How often a target is addressed: a reply to all goes to all once, a private one to each id as often as it
      is listed. */
  function Times(target: Option<int>, recipients: Option<seq<int>>): nat {
    match (target, recipients)
    case (None, None) => 1
    case (Some(cid), Some(cids)) => multiset(cids)[cid]
    case _ => 0
  }

  lemma {:induction false} ReceivedIs(target: Option<int>, recipients: Option<seq<int>>, messages: seq<string>)
    ensures MessagesTo(target, Tasks(Addressees(recipients), messages)) == RepeatEach(messages, Times(target, recipients))
  {
    var cid := if target.Some? then target.value else 0;
    RepeatNever(messages);
    RepeatOnce(messages);
    if recipients.None? {
      BroadcastReachesAll(messages, cid);
    } else {
      PrivateReplyStaysPrivate(recipients.value, messages, cid);
    }
  }

  // ---------- which delimiters are safe ----------

  /** The delimiter cannot end inside a colour tag, or can never occur in a line of a cleaned text. */
  predicate SafeDelimiter(d: string) {
    '\n' in d || '\"' in d || (d != "" && d[|d| - 1] != '^')
  }

  lemma SafeLine(line: string, limit: nat, d: string)
    requires SafeDelimiter(d) && '\n' !in line && '\"' !in line
    ensures !CutsSomeTag(LineChunks(line, limit, d))
  {
    var chunks := LineChunks(line, limit, d);
    if ByteLen(line) > limit {
      forall k | 0 <= k < |chunks| - 1
        ensures !CutsTag(chunks[k], chunks[k + 1])
      {
        SafeBoundary(line, limit, d, k);
      }
    }
  }

  /** The last item of a group that has a successor is an item of the line, but not its last one. */
  lemma LastItemOfGroup(items: seq<string>, groups: seq<seq<string>>, k: nat) returns (last: nat)
    requires Flatten(groups) == items && k + 1 < |groups| && groups[k] != [] && groups[k + 1] != []
    ensures last + 1 < |items| && items[last] == groups[k][|groups[k]| - 1]
  {
    GroupIsSlice(groups, k);
    GroupIsSlice(groups, k + 1);
    OffsetStep(groups, k);
    last := Offset(groups, k) + |groups[k]| - 1;
  }

  /** An item in front of another one ends with the delimiter, so its last character is no caret. */
  lemma {:induction false} SafeItem(line: string, d: string, k: nat)
    requires SafeDelimiter(d) && '\n' !in line && '\"' !in line
    requires k + 1 < |Items(line, d)|
    ensures var item := Items(line, d)[k]; item != "" && item[|item| - 1] != '^'
  {
    var items := Items(line, d);
    ItemsCut(line, d);
    var item := items[k];
    assert IsItem(item, d, k == |items| - 1);
    assert EndsAt(item, d, |item|);
    ItemInLine(items, k);
    var end := item[|item| - |d|..|item|];
    forall c | c in d
      ensures c in line
    {
      assert c in end;
    }
    if d != "" {
      assert end[|d| - 1] == item[|item| - 1];
    }
  }

  lemma {:induction false} SafeGroup(line: string, d: string, groups: seq<seq<string>>, k: nat)
    requires SafeDelimiter(d) && '\n' !in line && '\"' !in line
    requires Flatten(groups) == Items(line, d) && k + 1 < |groups| && groups[k] != [] && groups[k + 1] != []
    ensures var chunk := Concat(groups[k]); chunk != "" && chunk[|chunk| - 1] != '^'
  {
    var last := LastItemOfGroup(Items(line, d), groups, k);
    SafeItem(line, d, last);
    LastOfConcat(groups[k]);
  }

  /** A chunk that has a successor ends with the delimiter, so its last character is no caret. */
  lemma {:induction false} SafeBoundary(line: string, limit: nat, d: string, k: nat)
    requires ByteLen(line) > limit && k + 1 < |LineChunks(line, limit, d)|
    requires SafeDelimiter(d) && '\n' !in line && '\"' !in line
    ensures var chunk := LineChunks(line, limit, d)[k]; chunk != "" && chunk[|chunk| - 1] != '^'
  {
    var items := Items(line, d);
    var groups := Groups(items, 0, limit);
    GroupsAreGreedy(items, 0, limit);
    assert Admissible(groups[k], 0, limit) && Admissible(groups[k + 1], 0, limit);
    SafeGroup(line, d, groups, k);
  }

  lemma {:induction false} OffsetStep(groups: seq<seq<string>>, k: nat)
    requires k + 1 <= |groups|
    ensures Offset(groups, k + 1) == Offset(groups, k) + |groups[k]|
    decreases k
  {
    if k > 0 {
      OffsetStep(groups[1..], k - 1);
    } else {
      assert Offset(groups[1..], 0) == 0;
    }
  }

  lemma ItemInLine(items: seq<string>, k: nat)
    requires k < |items|
    ensures forall c :: c in items[k] ==> c in Concat(items)
  {
    forall c | c in items[k]
      ensures c in Concat(items)
    {
      CharInConcat(items, k, c);
    }
  }

  lemma {:induction false} LastOfConcat(pieces: seq<string>)
    requires pieces != [] && pieces[|pieces| - 1] != ""
    ensures var all, last := Concat(pieces), pieces[|pieces| - 1];
            all != "" && all[|all| - 1] == last[|last| - 1]
  {
    var init, last := pieces[..|pieces| - 1], pieces[|pieces| - 1];
    assert pieces == init + [last];
    ConcatAppend(init, [last]);
    ConcatOne(last);
  }

  /** A safe delimiter keeps the colours of every text, whatever the limit. */
  lemma SafeDelimiterKeepsColors(msg: string, limit: i32, d: string)
    requires SafeDelimiter(d)
    ensures LooksTheSame(msg, limit, d)
  {
    var lines := Split(Clean(msg), '\n');
    JoinSplit(Clean(msg), '\n');
    forall i | 0 <= i < |lines|
      ensures !CutsSomeTag(ChunkLists(lines, AsUsize(limit), d)[i])
    {
      if '\"' in lines[i] {
        CharInJoin(lines, i, '\n', '\"');
        assert false;
      }
      SafeLine(lines[i], AsUsize(limit), d);
    }
    ReplyKeepsColors(msg, limit, d);
  }

  lemma {:induction false} CharInJoin(parts: seq<string>, k: nat, sep: char, c: char)
    requires k < |parts| && c in parts[k]
    ensures c in Join(parts, sep)
    decreases k
  {
    if k > 0 {
      CharInJoin(parts[1..], k - 1, sep, c);
    }
  }

  /** Cutting an unsafe delimiter followed by a digit. */
  lemma UnsafeItems(d: string, head: string)
    requires head == if d == "" then "^" else d
    requires head[|head| - 1] == '^'
    ensures Items(head + "1", d) == [head, "1"]
  {
    var items := [head, "1"];
    assert IsItem(head, d, false) by {
      if d != "" {
        assert head[0..|head|] == d;
      } else {
        assert head[1..1] == d;
      }
    }
    assert IsItem("1", d, true);
    AllItemsCons("1", [], d);
    AllItemsCons(head, ["1"], d);
    assert [head] + ["1"] == items && ["1"] + [] == ["1"];
    ItemsUnique(items, d);
    ConcatTwo(head, "1");
  }

  lemma UnsafeChunks(d: string, head: string)
    requires head == if d == "" then "^" else d
    requires head[|head| - 1] == '^'
    ensures LineChunks(head + "1", 0, d) == [head, "1"]
  {
    UnsafeItems(d, head);
    PairChunks(head, "1", 0, d);
  }

  /** For any other delimiter there is a text that changes its look: one whose only line is the delimiter
      followed by a digit, or a lone tag when the delimiter is empty. */
  lemma {:induction false} UnsafeDelimiterBreaksColors(d: string)
    requires !SafeDelimiter(d)
    ensures !LooksTheSame((if d == "" then "^" else d) + "1", 0, d)
  {
    var head := if d == "" then "^" else d;
    var msg := head + "1";
    assert Clean(msg) == msg;
    SplitWithout(msg, '\n');
    UnsafeChunks(d, head);
    var lists := ChunkLists([msg], 0, d);
    assert lists[0] == [head, "1"];
    assert CutsTag(lists[0][0], lists[0][1]);
    assert CutsSomeTag(lists[0]);
    ReplyKeepsColors(msg, 0, d);
  }

  // ---------- sizes ----------

  /** Each message of a reply is a packed message behind a colour prefix of at most two bytes; it has at
      most 1002 bytes unless it is a single split line that alone has more than 1000. */
  lemma ReplyIsBounded(msg: string, limit: i32, delimiter: string, k: nat)
    requires k < |ReplyMessages(msg, limit, delimiter)|
    ensures |ReplyMessages(msg, limit, delimiter)| == |Pack(ReplyLines(msg, limit, delimiter))|
    ensures var lines := ReplyLines(msg, limit, delimiter);
            var packed, sent := Pack(lines), ReplyMessages(msg, limit, delimiter);
            && ByteLen(packed[k]) <= ByteLen(sent[k]) <= ByteLen(packed[k]) + 2
            && (ByteLen(packed[k]) <= 1000 || packed[k] in lines)
  {
    var lines := ReplyLines(msg, limit, delimiter);
    var packed := Pack(lines);
    EmitLength("", packed);
    CarriedColor("", packed, k);
    ReplyLinesHaveNoBreak(msg, limit, delimiter);
    MessagesAreFull(lines, k);
    var color := EndColor("", Join(packed[..k], '\n'));
    EndColorIsColor("", Join(packed[..k], '\n'));
    ByteLenConcat(color, packed[k]);
    if color != "" {
      TagByteLen(color);
    }
  }

  /** The bytes of the colour prefix of a message: none while no tag has been sent, else two. */
  function PrefixLen(packed: seq<string>, k: nat): nat
    requires k < |packed|
  {
    if FindTags(Join(packed[..k], '\n')) == [] then 0 else 2
  }

  lemma {:induction false} SentLength(packed: seq<string>, k: nat)
    requires k < |packed|
    ensures |Emit("", packed)| == |packed| && ByteLen(Emit("", packed)[k]) == PrefixLen(packed, k) + ByteLen(packed[k])
  {
    var before := Join(packed[..k], '\n');
    var color := EndColor("", before);
    EmitLength("", packed);
    CarriedColor("", packed, k);
    LastTagIsEndColor("", before);
    ByteLenConcat(color, packed[k]);
    if color != "" {
      TagByteLen(color);
    }
  }

  /** What is sent stays within 1000 bytes exactly when every packed message that has a tag somewhere before it
      leaves two bytes for the colour prefix, and every other one fits itself. */
  lemma {:induction false} SentFitsExactly(msg: string, limit: i32, delimiter: string)
    ensures var packed := Pack(ReplyLines(msg, limit, delimiter));
            AllWithin(ReplyMessages(msg, limit, delimiter), 1000) <==>
            forall k :: 0 <= k < |packed| ==> PrefixLen(packed, k) + ByteLen(packed[k]) <= 1000
  {
    var packed, sent := Pack(ReplyLines(msg, limit, delimiter)), ReplyMessages(msg, limit, delimiter);
    EmitLength("", packed);
    forall k | 0 <= k < |packed|
      ensures ByteLen(sent[k]) == PrefixLen(packed, k) + ByteLen(packed[k])
    {
      SentLength(packed, k);
    }
  }

  /** The two further bytes do occur: a tag, a line break and a line of 1000 characters make two messages,
      the second of which has 1002 bytes. */
  lemma ColorPrefixExceedsMaximum(line: string)
    requires line == seq(1000, _ => 'a')
    ensures var sent := ReplyMessages("^1\n" + line, 1000, " "); |sent| == 2 && ByteLen(sent[1]) == 1002
  {
    var msg, lines := "^1\n" + line, ["^1", line];
    assert Clean(msg) == msg;
    ByteLenReplicate(MAX_MSG_LENGTH, 'a');
    assert msg == "^1" + ['\n'] + line;
    SplitAfterPrefix("^1", line, '\n');
    SplitWithout(line, '\n');
    assert Split(msg, '\n') == lines;
    TagByteLen("^1");
    ChunksOfShortLines(lines, 1000, " ");
    TwoMessages("^1", line);
    assert Pack(lines) == lines by {
      assert Join(["^1"], '\n') == "^1" && Join([line], '\n') == line;
    }
    CarriedColor("", lines, 1);
    assert lines[..1] == ["^1"];
    assert "^1"[2..] == "";
    assert EndColor("", "^1") == "^1";
    ByteLenConcat("^1", line);
  }

  lemma TagByteLen(tag: string)
    requires IsTag(tag)
    ensures ByteLen(tag) == 2
  {}

  lemma TwoMessages(x: string, y: string)
    requires ByteLen(x) == 2 && ByteLen(y) == MAX_MSG_LENGTH
    ensures Groups([x, y], 1, MAX_MSG_LENGTH + 1) == [[x], [y]]
  {
    var groups := [[x], [y]];
    assert Flatten(groups) == [x, y] by {
      assert groups[1..] == [[y]] && groups[1..][1..] == [];
      assert Flatten(groups[1..]) == [y];
    }
    CostAppend([x], [y], 1);
    assert Cost([y], 1) == MAX_MSG_LENGTH + 1 by { assert [y][1..] == []; }
    assert Cost([x], 1) == 3 by { assert [x][1..] == []; }
    GreedyIsUnique(groups, [x, y], 1, MAX_MSG_LENGTH + 1);
  }
}
