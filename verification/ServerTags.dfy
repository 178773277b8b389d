/** `set_tag`: mark the server as a shinqlx server in the comma-separated console variable `sv_tags`. */
module ServerTags {
  import opened Machine
  import opened Text

  const TAG: string := "shinqlx"

  predicate HasTag(tags: string) {
    TAG in Split(tags, ',')
  }

  /** The tags after one call. */
  function Tagged(tags: string): string {
    if HasTag(tags) then tags else TAG + (if ByteLen(tags) > 2 then "," else "") + tags
  }

  class CvarTable {
    var svTags: Option<string>
    var forced: seq<string>  // the values written with set_cvar_forced, oldest first

    constructor (svTags: Option<string>)
      ensures this.svTags == svTags && forced == []
    {
      this.svTags := svTags;
      forced := [];
    }

    method SetTag()
      modifies this
      ensures svTags == if old(svTags).Some? then Some(Tagged(old(svTags.value))) else None
      ensures forced == if svTags == old(svTags) then old(forced) else old(forced) + [svTags.value]
      ensures old(svTags).None? || "shinqlx" in Split(old(svTags.value), ',') ==>
                svTags == old(svTags) && forced == old(forced)
      ensures old(svTags).Some? && "shinqlx" !in Split(old(svTags.value), ',') ==>
                && svTags.Some? && forced == old(forced) + [svTags.value]
                && svTags.value == "shinqlx" + (if ByteLen(old(svTags.value)) > 2 then "," else "") + old(svTags.value)
    {
      if svTags.Some? && TAG !in Split(svTags.value, ',') {
        var tags := svTags.value;
        if ByteLen(tags) > 2 {
          tags := "," + tags;
        }
        tags := TAG + tags;
        assert tags == Tagged(svTags.value);
        assert tags != svTags.value by { assert |tags| > |svTags.value|; }
        forced := forced + [tags];
        svTags := Some(tags);
      }
    }
  }

  // ---------- what a call achieves ----------

  function NonEmpty(parts: seq<string>): seq<string> {
    if parts == [] then [] else (if parts[0] == "" then [] else [parts[0]]) + NonEmpty(parts[1..])
  }

  /** The tags proper of a tag string. */
  function TagsOf(tags: string): seq<string> {
    NonEmpty(Split(tags, ','))
  }

  /** The tag can be put in front without running into what is there. */
  predicate RoomInFront(tags: string) {
    "shinqlx" in Split(tags, ',') || tags == "" || ByteLen(tags) > 2 || tags[0] == ','
  }

  lemma {:induction false} PartsAreShort(s: string, sep: char)
    ensures forall i :: 0 <= i < |Split(s, sep)| ==> |Split(s, sep)[i]| <= |s|
  {
    if s != "" {
      PartsAreShort(s[1..], sep);
    }
  }

  lemma {:induction false} SplitGlued(p: string, s: string, sep: char)
    requires sep !in p
    ensures Split(p + s, sep) == [p + Split(s, sep)[0]] + Split(s, sep)[1..]
  {
    var parts := Split(s, sep);
    if p == "" {
      assert p + s == s && p + parts[0] == parts[0];
    } else {
      assert p[0] in p;
      assert forall c :: c in p[1..] ==> c in p;
      assert (p + s)[1..] == p[1..] + s;
      SplitGlued(p[1..], s, sep);
      assert [p[0]] + (p[1..] + parts[0]) == p + parts[0];
    }
  }

  /** A glued tag is lost: it runs into the first of the old tags. */
  lemma GluedTag(tags: string)
    requires tags != "" && ByteLen(tags) <= 2 && tags[0] != ','
    ensures !HasTag(TAG + tags) && ByteLen(TAG + tags) > 2
  {
    var parts := Split(tags, ',');
    SplitGlued(TAG, tags, ',');
    PartsAreShort(tags, ',');
    assert parts[0] != "";
    assert |TAG + parts[0]| > |TAG|;
    forall i | 0 <= i < |Split(TAG + tags, ',')|
      ensures Split(TAG + tags, ',')[i] != TAG
    {
      if i > 0 {
        assert Split(TAG + tags, ',')[i] == parts[i];
      }
    }
  }

  lemma SeparatedTag(tags: string)
    ensures Split(TAG + "," + tags, ',') == [TAG] + Split(tags, ',')
    ensures HasTag(TAG + "," + tags)
  {
    assert "," == [','];
    SplitAfterPrefix(TAG, tags, ',');
    assert ([TAG] + Split(tags, ','))[0] == TAG;
  }

  /** A call leaves the string alone exactly when the tag is there; anything else it writes ends with the old string. */
  lemma PresentTagKept(tags: string)
    ensures Tagged(tags) == tags <==> "shinqlx" in Split(tags, ',')
    ensures |Tagged(tags)| >= |tags| && Tagged(tags)[|Tagged(tags)| - |tags|..] == tags
  {
    if !HasTag(tags) {
      assert |Tagged(tags)| > |tags|;
    }
  }

  /** One call makes the tag present exactly when there is room, and then it keeps every old tag in order, with
      the server's own tag in front if it was not there. */
  lemma TaggedOnce(tags: string)
    ensures "shinqlx" in Split(Tagged(tags), ',') <==> RoomInFront(tags)
    ensures RoomInFront(tags) ==>
              TagsOf(Tagged(tags)) ==
              (if "shinqlx" in Split(tags, ',') then TagsOf(tags) else ["shinqlx"] + TagsOf(tags))
  {
    if !HasTag(tags) {
      if ByteLen(tags) > 2 {
        SeparatedTag(tags);
        assert ([TAG] + Split(tags, ','))[1..] == Split(tags, ',');
      } else if tags == "" {
        assert TAG + "" + tags == TAG;
        SplitWithout(TAG, ',');
        assert NonEmpty([TAG]) == [TAG] by { assert [TAG][1..] == []; }
        assert NonEmpty([""]) == [] by { assert [""][1..] == []; }
      } else if tags[0] == ',' {
        var rest := tags[1..];
        assert TAG + "" + tags == TAG + "," + rest;
        SeparatedTag(rest);
        assert ([TAG] + Split(rest, ','))[1..] == Split(rest, ',');
        assert ([""] + Split(rest, ','))[1..] == Split(rest, ',');
        assert [] + TagsOf(rest) == TagsOf(rest);
      } else {
        assert TAG + "" + tags == TAG + tags;
        GluedTag(tags);
      }
    }
  }

  /** The tag `ca` is lost and the server's own tag with it; the second call repairs only the latter. */
  lemma {:induction false} ShortTagIsLost()
    ensures Tagged("ca") == "shinqlxca" && !HasTag(Tagged("ca"))
    ensures Tagged(Tagged("ca")) == "shinqlx,shinqlxca"
  {
    assert "ca"[1..] == "a" && "a"[1..] == "";
    SplitWithout("ca", ',');
    GluedTag("ca");
    assert TAG + "" + "ca" == "shinqlxca" && TAG + "ca" == "shinqlxca";
    assert TAG + "," + "shinqlxca" == "shinqlx,shinqlxca";
  }

  /** A second call changes nothing exactly when there was room at the first. */
  lemma TaggedTwice(tags: string)
    ensures Tagged(Tagged(tags)) == Tagged(tags) <==> RoomInFront(tags)
  {
    TaggedOnce(tags);
    if !RoomInFront(tags) {
      assert |Tagged(Tagged(tags))| > |Tagged(tags)|;
    }
  }

  /** Whatever the string was, two calls make the tag present and further calls change nothing. */
  lemma TwoCallsSuffice(tags: string)
    ensures HasTag(Tagged(Tagged(tags)))
    ensures Tagged(Tagged(Tagged(tags))) == Tagged(Tagged(tags))
  {
    TaggedOnce(tags);
    if !RoomInFront(tags) {
      GluedTag(tags);
      assert TAG + "" + tags == TAG + tags;
      SeparatedTag(TAG + tags);
    }
  }
}
