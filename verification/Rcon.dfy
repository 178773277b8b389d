/** The remote console cuts a server text into coloured segments with two regular expressions. */
module Rcon {
  import opened Text
  import opened Color

  /** A text together with the tag in front of it, or with the colour name "reset" when there is none. */
  datatype Segment = Segment(color: string, text: string)

  const RESET: string := "reset"

  /** Where the first colour tag starts, or the end of the string. */
  function FirstTag(s: string): (i: nat)
    ensures i <= |s| && (i < |s| ==> TagAt(s, i))
    ensures forall j :: 0 <= j < i ==> !TagAt(s, j)
  {
    if s == "" || TagAt(s, 0) then 0
    else
      var i := FirstTag(s[1..]);
      assert forall j :: 1 <= j < i + 1 ==> TagAt(s, j) == TagAt(s[1..], j - 1);
      i + 1
  }

  /** Where the first caret is, or the end of the string. */
  function FirstCaret(s: string): (i: nat)
    ensures i <= |s| && (forall j :: 0 <= j < i ==> s[j] != '^') && (i < |s| ==> s[i] == '^')
  {
    if s == "" || s[0] == '^' then 0 else 1 + FirstCaret(s[1..])
  }

  /** The expression `(\^[0-7])([^\^]+)` matches at the start: a tag and at least one character that is
      no caret. */
  predicate CaptureAt(s: string) {
    TagAt(s, 0) && 2 < |s| && s[2] != '^'
  }

  /** How many characters such a match takes. */
  function CaptureLength(s: string): (n: nat)
    requires CaptureAt(s)
    ensures 2 < n <= |s|
  {
    2 + FirstCaret(s[2..])
  }

  /** The non-overlapping matches from left to right, as the iterator of the regex library yields them. */
  function Captures(s: string): seq<Segment>
    decreases |s|
  {
    if s == "" then []
    else if CaptureAt(s) then
      var n := CaptureLength(s);
      [Segment(s[..2], s[2..n])] + Captures(s[n..])
    else Captures(s[1..])
  }

  function NonEmpty(segments: seq<Segment>): seq<Segment> {
    if segments == [] then []
    else (if segments[0].text == "" then [] else [segments[0]]) + NonEmpty(segments[1..])
  }

  lemma {:induction false} CapturesAreNonEmpty(s: string)
    ensures NonEmpty(Captures(s)) == Captures(s)
    decreases |s|
  {
    if s != "" {
      if CaptureAt(s) {
        var n := CaptureLength(s);
        CapturesAreNonEmpty(s[n..]);
        assert Captures(s)[1..] == Captures(s[n..]);
      } else {
        CapturesAreNonEmpty(s[1..]);
      }
    }
  }

  /** The segments of a text. */
  function Segments(s: string): seq<Segment> {
    NonEmpty([Segment(RESET, s[..FirstTag(s)])] + Captures(s))
  }

  method SplitQlColors(input: string) returns (segments: seq<Segment>)
    ensures segments == Segments(input)
  {
    var result := [Segment(RESET, input[..FirstTag(input)])];
    var pos := 0;
    while pos < |input|
      invariant 0 <= pos <= |input|
      invariant [Segment(RESET, input[..FirstTag(input)])] + Captures(input) == result + Captures(input[pos..])
    {
      var rest := input[pos..];
      if CaptureAt(rest) {
        var n := CaptureLength(rest);
        var segment := Segment(rest[..2], rest[2..n]);
        assert rest[n..] == input[pos + n..];
        Associative(result, [segment], Captures(rest[n..]));
        result := result + [segment];
        pos := pos + n;
      } else {
        assert rest[1..] == input[pos + 1..];
        pos := pos + 1;
      }
    }
    assert result + [] == result;
    segments := NonEmpty(result);
  }

  // ---------- what the segments show ----------

  function Solid(color: string, text: string): (glyphs: seq<Glyph>)
    ensures |glyphs| == |text| && forall i :: 0 <= i < |text| ==> glyphs[i] == Glyph(color, text[i])
  {
    seq(|text|, i requires 0 <= i < |text| => Glyph(color, text[i]))
  }

  function Render(segments: seq<Segment>): seq<Glyph> {
    if segments == [] then [] else Solid(segments[0].color, segments[0].text) + Render(segments[1..])
  }

  /** The console as an automaton over the characters: before the first tag everything is visible; behind it
      a caret that starts no tag hides itself and everything up to the next tag. */
  function Shown(color: string, tagged: bool, hidden: bool, s: string): seq<Glyph>
    decreases |s|
  {
    if s == "" then []
    else if TagAt(s, 0) then Shown(s[..2], true, false, s[2..])
    else if hidden || (tagged && s[0] == '^') then Shown(color, tagged, true, s[1..])
    else [Glyph(color, s[0])] + Shown(color, tagged, false, s[1..])
  }

  lemma {:induction false} NonEmptyKeepsRender(segments: seq<Segment>)
    ensures Render(NonEmpty(segments)) == Render(segments)
  {
    if segments != [] {
      NonEmptyKeepsRender(segments[1..]);
      if segments[0].text == "" {
        assert Solid(segments[0].color, "") == [];
        assert [] + NonEmpty(segments[1..]) == NonEmpty(segments[1..]);
        assert [] + Render(segments[1..]) == Render(segments[1..]);
      } else {
        assert NonEmpty(segments)[1..] == NonEmpty(segments[1..]);
      }
    }
  }

  /** Visible text up to the next caret or tag. */
  lemma {:induction false} ShownPlain(color: string, tagged: bool, s: string, n: nat)
    requires n <= |s| && (forall i :: 0 <= i < n ==> !TagAt(s, i) && (tagged ==> s[i] != '^'))
    ensures Shown(color, tagged, false, s) == Solid(color, s[..n]) + Shown(color, tagged, false, s[n..])
  {
    if n > 0 {
      forall i | 0 <= i < n - 1
        ensures !TagAt(s[1..], i) && (tagged ==> s[1..][i] != '^')
      {
        assert !TagAt(s, i + 1);
      }
      assert !TagAt(s, 0);
      ShownPlain(color, tagged, s[1..], n - 1);
      assert s[1..][n - 1..] == s[n..];
      assert Solid(color, s[..n]) == [Glyph(color, s[0])] + Solid(color, s[1..][..n - 1]);
    }
  }

  /** Behind a tag whose text has been taken, at a caret or hidden, the captures show what the automaton shows. */
  lemma {:induction false} CapturesShown(color: string, hidden: bool, s: string)
    requires hidden || s == "" || s[0] == '^'
    ensures Render(Captures(s)) == Shown(color, true, hidden, s)
    decreases |s|
  {
    if s != "" {
      if CaptureAt(s) {
        var n := CaptureLength(s);
        var text := s[2..n];
        assert text == s[2..][..n - 2];
        assert forall i :: 0 <= i < n - 2 ==> s[2..][i] == s[2..][..n - 2][i];
        ShownPlain(s[..2], true, s[2..], n - 2);
        assert s[2..][n - 2..] == s[n..];
        CapturesShown(s[..2], false, s[n..]);
        assert Captures(s)[1..] == Captures(s[n..]);
      } else if TagAt(s, 0) {
        assert !CaptureAt(s[1..]);
        assert s[1..][1..] == s[2..];
        CapturesShown(s[..2], false, s[2..]);
      } else {
        CapturesShown(color, true, s[1..]);
      }
    }
  }

  /** Characters at which no tag starts are skipped. */
  lemma {:induction false} CapturesSkip(s: string, n: nat)
    requires n <= |s| && forall i :: 0 <= i < n ==> !TagAt(s, i)
    ensures Captures(s) == Captures(s[n..])
    decreases n
  {
    if n > 0 {
      forall i | 0 <= i < n - 1
        ensures !TagAt(s[1..], i)
      {
        assert !TagAt(s, i + 1);
      }
      assert !TagAt(s, 0);
      CapturesSkip(s[1..], n - 1);
      assert s[1..][n - 1..] == s[n..];
    }
  }

  /** For every text the segments carry exactly what the automaton shows, in order, in its colours. */
  lemma SegmentsShown(s: string)
    ensures Render(Segments(s)) == Shown("reset", false, false, s)
  {
    var n := FirstTag(s);
    var first := Segment(RESET, s[..n]);
    NonEmptyKeepsRender([first] + Captures(s));
    assert ([first] + Captures(s))[1..] == Captures(s);
    CapturesSkip(s, n);
    ShownPlain(RESET, false, s, n);
    if n < |s| {
      CapturesShown(RESET, false, s[n..]);
      assert TagAt(s[n..], 0);
      assert Shown(RESET, false, false, s[n..]) == Shown(RESET, true, false, s[n..]);
    }
  }

  // ---------- when nothing is hidden ----------

  /** Some caret behind the first tag starts no tag. */
  predicate StrayCaret(s: string) {
    exists i, j :: 0 <= i < j < |s| && TagAt(s, i) && s[j] == '^' && !TagAt(s, j)
  }

  /** Some caret starts no tag. */
  predicate AnyStray(s: string) {
    exists j :: 0 <= j < |s| && s[j] == '^' && !TagAt(s, j)
  }

  lemma AnyStrayStep(s: string)
    requires s != ""
    ensures TagAt(s, 0) ==> (AnyStray(s) <==> AnyStray(s[2..]))
    ensures !TagAt(s, 0) ==> (AnyStray(s) <==> s[0] == '^' || AnyStray(s[1..]))
  {}

  lemma StrayCaretStep(s: string)
    requires s != ""
    ensures TagAt(s, 0) ==> (StrayCaret(s) <==> AnyStray(s[2..]))
    ensures !TagAt(s, 0) ==> (StrayCaret(s) <==> StrayCaret(s[1..]))
  {
    if TagAt(s, 0) {
      AnyStrayStep(s);
      if AnyStray(s) {
        var j :| 0 <= j < |s| && s[j] == '^' && !TagAt(s, j);
        assert TagAt(s, 0) && 0 < j;
      }
    } else {
      if StrayCaret(s) {
        var i, j :| 0 <= i < j < |s| && TagAt(s, i) && s[j] == '^' && !TagAt(s, j);
        assert TagAt(s[1..], i - 1) && s[1..][j - 1] == '^' && !TagAt(s[1..], j - 1);
      }
      if StrayCaret(s[1..]) {
        var i, j :| 0 <= i < j < |s[1..]| && TagAt(s[1..], i) && s[1..][j] == '^' && !TagAt(s[1..], j);
        assert TagAt(s, i + 1) && s[j + 1] == '^' && !TagAt(s, j + 1);
      }
    }
  }

  /** Behind a tag the automaton hides something exactly when some caret is stray. */
  lemma {:induction false} TaggedHides(color: string, s: string)
    ensures !AnyStray(s) ==> Shown(color, true, false, s) == Paint(color, s)
    ensures AnyStray(s) ==> |Shown(color, true, false, s)| < |Paint(color, s)|
    decreases |s|
  {
    if s != "" {
      AnyStrayStep(s);
      if TagAt(s, 0) {
        TaggedHides(s[..2], s[2..]);
      } else if s[0] == '^' {
        HiddenIsLess(color, s[1..]);
      } else {
        TaggedHides(color, s[1..]);
      }
    }
  }

  lemma {:induction false} HiddenIsLess(color: string, s: string)
    ensures |Shown(color, true, true, s)| <= |Paint(color, s)|
    decreases |s|
  {
    if s != "" {
      if TagAt(s, 0) {
        TaggedHides(s[..2], s[2..]);
      } else {
        HiddenIsLess(color, s[1..]);
      }
    }
  }

  lemma {:induction false} UntaggedHides(color: string, s: string)
    ensures Shown(color, false, false, s) == Paint(color, s) <==> !StrayCaret(s)
    decreases |s|
  {
    if s != "" {
      StrayCaretStep(s);
      if TagAt(s, 0) {
        TaggedHides(s[..2], s[2..]);
      } else {
        UntaggedHides(color, s[1..]);
        assert Shown(color, false, false, s)[1..] == Shown(color, false, false, s[1..]);
        assert Paint(color, s)[1..] == Paint(color, s[1..]);
      }
    }
  }

  /** The segments carry exactly the visible characters, each in its colour, if and only if every caret
      behind the first tag starts a tag. */
  lemma SegmentsKeepColors(s: string)
    ensures Render(Segments(s)) == Paint("reset", s) <==> !StrayCaret(s)
  {
    SegmentsShown(s);
    UntaggedHides(RESET, s);
  }

  /** A tag, a text and a stray caret: the caret and the text behind it are lost. */
  lemma {:induction false} StrayCaretLosesText()
    ensures StrayCaret("^1a^b") && Render(Segments("^1a^b")) != Paint(RESET, "^1a^b")
  {
    var s := "^1a^b";
    assert TagAt(s, 0) && s[3] == '^' && !TagAt(s, 3);
    SegmentsKeepColors(s);
  }

  // ---------- printing segments ----------

  function Print(segments: seq<Segment>): string {
    if segments == [] then ""
    else (if segments[0].color == RESET then "" else segments[0].color) + segments[0].text + Print(segments[1..])
  }

  predicate TaggedSegment(g: Segment) {
    IsTag(g.color) && g.text != "" && '^' !in g.text
  }

  predicate AllTagged(segments: seq<Segment>) {
    forall i :: 0 <= i < |segments| ==> TaggedSegment(segments[i])
  }

  /** Only the first segment may lack a tag; its text may hold carets but no tag. */
  predicate IsSegmentList(segments: seq<Segment>) {
    if segments != [] && segments[0].color == RESET
    then segments[0].text != "" && TagFree(segments[0].text) && AllTagged(segments[1..])
    else AllTagged(segments)
  }

  lemma CaretFreeText(text: string, t: string)
    requires '^' !in text && (t == "" || t[0] == '^')
    ensures FirstCaret(text + t) == |text|
  {
    var s := text + t;
    assert forall k :: 0 <= k < |text| ==> text[k] in text && s[k] == text[k];
    assert t != "" ==> s[|text|] == '^';
  }

  lemma PrintStart(segments: seq<Segment>)
    requires AllTagged(segments)
    ensures Print(segments) == "" || Print(segments)[0] == '^'
  {}

  /** Tagged segments print and parse back. */
  lemma {:induction false} CapturesOfPrint(segments: seq<Segment>)
    requires AllTagged(segments)
    ensures Captures(Print(segments)) == segments
  {
    if segments != [] {
      var g, rest := segments[0], segments[1..];
      assert TaggedSegment(g);
      PrintStart(rest);
      CaretFreeText(g.text, Print(rest));
      var s := Print(segments);
      assert s == g.color + g.text + Print(rest);
      assert s[..2] == g.color && s[2..] == g.text + Print(rest);
      assert g.text[0] in g.text;
      assert CaptureAt(s);
      var n := CaptureLength(s);
      assert s[2..n] == g.text && s[n..] == Print(rest);
      CapturesOfPrint(rest);
      assert segments == [g] + rest;
    }
  }

  lemma {:induction false} TaggedAreNonEmpty(segments: seq<Segment>)
    requires AllTagged(segments)
    ensures NonEmpty(segments) == segments
  {
    if segments != [] {
      assert TaggedSegment(segments[0]);
      TaggedAreNonEmpty(segments[1..]);
    }
  }

  lemma FirstTagOf(s: string, t: string)
    requires TagFree(s) && (t == "" || TagAt(t, 0))
    ensures FirstTag(s + t) == |s|
  {
    forall i | 0 <= i < |s|
      ensures !TagAt(s + t, i)
    {
      assert !TagAt(s, i);
    }
    assert t != "" ==> TagAt(s + t, |s|);
  }

  /** Text in front of the first tag has the colour name "reset" and is left out when it is empty; what follows is
      the printed list. */
  lemma SegmentsOfPrint(text: string, tagged: seq<Segment>)
    requires TagFree(text) && AllTagged(tagged)
    ensures Segments(text + Print(tagged)) == (if text == "" then [] else [Segment("reset", text)]) + tagged
  {
    var t := Print(tagged);
    var s := text + t;
    PrintOfTagged(tagged);
    FirstTagOf(text, t);
    CapturesSkip(s, |text|);
    assert s[..|text|] == text && s[|text|..] == t;
    CapturesOfPrint(tagged);
    TaggedAreNonEmpty(tagged);
    assert ([Segment(RESET, text)] + tagged)[1..] == tagged;
  }

  /** Printing a list of segments and splitting the text gives the same list. */
  lemma PrintThenSplit(segments: seq<Segment>)
    requires IsSegmentList(segments)
    ensures Segments(Print(segments)) == segments
  {
    if segments != [] && segments[0].color == RESET {
      var text, rest := segments[0].text, segments[1..];
      SegmentsOfPrint(text, rest);
      assert "" + text == text;
      assert [segments[0]] + rest == segments;
    } else {
      SegmentsOfPrint("", segments);
      assert "" + Print(segments) == Print(segments);
      assert [] + segments == segments;
    }
  }

  lemma PrintOfTagged(segments: seq<Segment>)
    requires AllTagged(segments)
    ensures Print(segments) == "" || TagAt(Print(segments), 0)
  {}

  lemma {:induction false} CapturesAreTagged(s: string)
    ensures AllTagged(Captures(s))
    decreases |s|
  {
    if s != "" {
      if CaptureAt(s) {
        var n := CaptureLength(s);
        assert s[2..n] == s[2..][..n - 2];
        assert TaggedSegment(Segment(s[..2], s[2..n]));
        CapturesAreTagged(s[n..]);
      } else {
        CapturesAreTagged(s[1..]);
      }
    }
  }

  /** Splitting always gives such a list, so printing and splitting once more changes nothing. */
  lemma SplitIsStable(s: string)
    ensures IsSegmentList(Segments(s))
    ensures Segments(Print(Segments(s))) == Segments(s)
  {
    var n := FirstTag(s);
    var first := Segment(RESET, s[..n]);
    assert forall i :: 0 <= i < n ==> TagAt(s[..n], i) ==> TagAt(s, i);
    CapturesAreNonEmpty(s);
    CapturesAreTagged(s);
    assert ([first] + Captures(s))[1..] == Captures(s);
    if first.text == "" && Captures(s) != [] {
      assert TaggedSegment(Captures(s)[0]);
    }
    PrintThenSplit(Segments(s));
  }
}
