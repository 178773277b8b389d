/** Quake Live colour tags `^0` to `^7`: what a reader sees of a text, character by character. */
module Color {

  /** A visible character together with the colour it is shown in. */
  datatype Glyph = Glyph(color: string, ch: char)

  predicate IsColorDigit(c: char) {
    '0' <= c <= '7'
  }

  /** The two characters at `i` form a colour tag, the regular expression `\^[0-7]`. */
  predicate TagAt(s: string, i: nat) {
    i + 1 < |s| && s[i] == '^' && IsColorDigit(s[i + 1])
  }

  /** The eight tags. */
  lemma TagsAre(s: string, i: nat)
    ensures TagAt(s, i) <==>
            i + 2 <= |s| && s[i..i + 2] in {"^0", "^1", "^2", "^3", "^4", "^5", "^6", "^7"}
  {
    if i + 2 <= |s| {
      assert s[i..i + 2] == [s[i], s[i + 1]];
    }
  }

  predicate IsTag(t: string) {
    |t| == 2 && TagAt(t, 0)
  }

  predicate TagFree(s: string) {
    forall i :: 0 <= i < |s| ==> !TagAt(s, i)
  }

  /** What is shown when `s` is printed while the current colour is `color`: tags are invisible and
      switch the colour, every other character is visible. */
  function Paint(color: string, s: string): seq<Glyph>
    decreases |s|
  {
    if s == "" then []
    else if TagAt(s, 0) then Paint(s[..2], s[2..])
    else [Glyph(color, s[0])] + Paint(color, s[1..])
  }

  /** The colour that is current behind `s`. */
  function EndColor(color: string, s: string): string
    decreases |s|
  {
    if s == "" then color
    else if TagAt(s, 0) then EndColor(s[..2], s[2..])
    else EndColor(color, s[1..])
  }

  /** A text without tags is shown as it is, in the current colour, which stays. */
  lemma {:induction false} PlainText(color: string, s: string)
    requires TagFree(s)
    ensures |Paint(color, s)| == |s| && forall i :: 0 <= i < |s| ==> Paint(color, s)[i] == Glyph(color, s[i])
    ensures EndColor(color, s) == color
  {
    if s != "" {
      assert !TagAt(s, 0);
      forall i | 0 <= i < |s| - 1
        ensures !TagAt(s[1..], i)
      {
        assert !TagAt(s, i + 1);
      }
      PlainText(color, s[1..]);
    }
  }

  /** All matches of `\^[0-7]` in order, as the iterator of the regex library yields them. */
  function FindTags(s: string): (tags: seq<string>)
    ensures forall i :: 0 <= i < |tags| ==> IsTag(tags[i])
    decreases |s|
  {
    if s == "" then []
    else if TagAt(s, 0) then [s[..2]] + FindTags(s[2..])
    else FindTags(s[1..])
  }

  /** The last match of the regular expression is the colour the text ends in. */
  lemma {:induction false} LastTagIsEndColor(color: string, s: string)
    ensures EndColor(color, s) == if FindTags(s) == [] then color else FindTags(s)[|FindTags(s)| - 1]
    decreases |s|
  {
    if s != "" {
      if TagAt(s, 0) {
        LastTagIsEndColor(s[..2], s[2..]);
      } else {
        LastTagIsEndColor(color, s[1..]);
      }
    }
  }

  /** The boundary between `x` and `y` cuts a colour tag in two. */
  predicate CutsTag(x: string, y: string) {
    x != "" && y != "" && x[|x| - 1] == '^' && IsColorDigit(y[0])
  }

  /** Printing piece by piece shows the same as printing at once, unless a tag is cut. */
  lemma {:induction false} PaintConcat(color: string, x: string, y: string)
    requires !CutsTag(x, y)
    ensures Paint(color, x + y) == Paint(color, x) + Paint(EndColor(color, x), y)
    ensures EndColor(color, x + y) == EndColor(EndColor(color, x), y)
    decreases |x|
  {
    if x == "" {
      assert x + y == y;
    } else if TagAt(x, 0) {
      assert (x + y)[..2] == x[..2] && (x + y)[2..] == x[2..] + y;
      PaintConcat(x[..2], x[2..], y);
    } else {
      assert (x + y)[1..] == x[1..] + y;
      assert !TagAt(x + y, 0);
      PaintConcat(color, x[1..], y);
      assert [Glyph(color, x[0])] + (Paint(color, x[1..]) + Paint(EndColor(color, x), y))
          == [Glyph(color, x[0])] + Paint(color, x[1..]) + Paint(EndColor(color, x), y);
    }
  }

  /** A cut tag shows up as two characters that the uncut text hides. */
  lemma {:induction false} CutTagShows(color: string, x: string, y: string)
    requires CutsTag(x, y)
    ensures |Paint(color, x + y)| + 2 == |Paint(color, x)| + |Paint(color, y)|
    decreases |x|
  {
    if |x| == 1 {
      var xy := x + y;
      assert xy[2..] == y[1..];
      assert TagAt(xy, 0);
      assert x[1..] == "" && Paint(color, x) == [Glyph(color, x[0])];
      assert !TagAt(y, 0);
      PaintLength(xy[..2], color, y[1..]);
    } else if TagAt(x, 0) {
      assert (x + y)[..2] == x[..2] && (x + y)[2..] == x[2..] + y;
      CutTagShows(x[..2], x[2..], y);
      PaintLength(x[..2], color, y);
    } else {
      assert (x + y)[1..] == x[1..] + y;
      CutTagShows(color, x[1..], y);
    }
  }

  /** How many characters are visible does not depend on the colour. */
  lemma {:induction false} PaintLength(c: string, d: string, s: string)
    ensures |Paint(c, s)| == |Paint(d, s)|
    decreases |s|
  {
    if s != "" && !TagAt(s, 0) {
      PaintLength(c, d, s[1..]);
    }
  }
}
