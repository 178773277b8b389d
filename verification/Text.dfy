/** Strings as the server sees them.  A Dafny `char` is one Unicode scalar value, as in a Rust string,
    while lengths are counted in bytes of the UTF-8 encoding, as `str::len` does. */
module Text {
  import opened Machine

  /** Number of bytes of the UTF-8 encoding of one character. */
  function Width(c: char): (w: nat)
    ensures 1 <= w <= 4
  {
    if c as int < 0x80 then 1
    else if c as int < 0x800 then 2
    else if c as int < 0x1_0000 then 3
    else 4
  }

  function ByteLen(s: string): (n: nat)
    ensures |s| <= n <= 4 * |s|
  {
    if s == "" then 0 else Width(s[0]) + ByteLen(s[1..])
  }

  lemma {:induction false} ByteLenConcat(a: string, b: string)
    ensures ByteLen(a + b) == ByteLen(a) + ByteLen(b)
  {
    if a == "" {
      assert a + b == b;
    } else {
      ByteLenConcat(a[1..], b);
      assert (a + b)[1..] == a[1..] + b;
    }
  }

  lemma {:induction false} ByteLenReplicate(n: nat, c: char)
    ensures ByteLen(seq(n, _ => c)) == n * Width(c)
  {
    if n > 0 {
      ByteLenReplicate(n - 1, c);
      assert seq(n, _ => c)[1..] == seq(n - 1, _ => c);
      assert n * Width(c) == (n - 1) * Width(c) + Width(c);
    }
  }

  lemma Associative<T>(a: seq<T>, b: seq<T>, c: seq<T>)
    ensures a + b + c == a + (b + c)
  {}

  // ---------- the bytes of a text ----------

  /** The UTF-8 encoding of a character, after the table in section 3 of RFC 3629. */
  function Encode(c: char): seq<byte> {
    var n := c as int;
    if n <= 0x7F then [n]
    else if n <= 0x7FF then [0xC0 + n / 0x40, Tail(n, 1)]
    else if n <= 0xFFFF then [0xE0 + n / 0x1000, Tail(n, 0x40), Tail(n, 1)]
    else [0xF0 + n / 0x4_0000, Tail(n, 0x1000), Tail(n, 0x40), Tail(n, 1)]
  }

  /** A continuation byte: the six bits of `n` in front of those counted by `unit`. */
  function Tail(n: nat, unit: nat): byte
    requires unit > 0
  {
    0x80 + n / unit % 0x40
  }

  function EncodeAll(s: string): seq<byte> {
    if s == "" then [] else Encode(s[0]) + EncodeAll(s[1..])
  }

  /** The number that an encoded character stands for: the first byte tells how many follow. */
  function Decode(bytes: seq<byte>): Option<int> {
    if bytes == [] then None
    else
      var first: int := bytes[0];
      if first < 0x80 then Some(first)
      else if 0xC0 <= first < 0xE0 && |bytes| >= 2 then Some((first - 0xC0) * 0x40 + Rest(bytes, 1))
      else if 0xE0 <= first < 0xF0 && |bytes| >= 3 then
        Some((first - 0xE0) * 0x1000 + Rest(bytes, 1) * 0x40 + Rest(bytes, 2))
      else if 0xF0 <= first < 0xF8 && |bytes| >= 4 then
        Some((first - 0xF0) * 0x4_0000 + Rest(bytes, 1) * 0x1000 + Rest(bytes, 2) * 0x40 + Rest(bytes, 3))
      else None
  }

  /** The six bits of a continuation byte. */
  function Rest(bytes: seq<byte>, i: nat): int
    requires i < |bytes|
  {
    bytes[i] as int - 0x80
  }

  lemma SixBits(n: nat)
    ensures n == n / 0x40 * 0x40 + n % 0x40
    ensures n / 0x1000 == n / 0x40 / 0x40 && n / 0x4_0000 == n / 0x1000 / 0x40
  {}

  /** Whatever follows it, an encoded character decodes to itself, and its width is the length of its encoding. */
  lemma EncodeDecode(c: char, more: seq<byte>)
    ensures Decode(Encode(c) + more) == Some(c as int)
    ensures |Encode(c)| == Width(c)
  {
    var n, bytes := c as int, Encode(c) + more;
    SixBits(n);
    SixBits(n / 0x40);
    SixBits(n / 0x1000);
    assert forall i :: 0 <= i < |Encode(c)| ==> bytes[i] == Encode(c)[i];
  }

  /** A length in bytes is the length of the encoded text. */
  lemma {:induction false} ByteLenIsEncodedLength(s: string)
    ensures ByteLen(s) == |EncodeAll(s)|
  {
    if s != "" {
      EncodeDecode(s[0], []);
      ByteLenIsEncodedLength(s[1..]);
    }
  }

  /** Different texts have different encodings. */
  lemma {:induction false} EncodingIsInjective(s: string, t: string)
    requires EncodeAll(s) == EncodeAll(t)
    ensures s == t
  {
    if s != "" && t != "" {
      EncodeDecode(s[0], EncodeAll(s[1..]));
      EncodeDecode(t[0], EncodeAll(t[1..]));
      assert s[0] == t[0];
      assert EncodeAll(s[1..]) == EncodeAll(s)[|Encode(s[0])|..];
      assert EncodeAll(t[1..]) == EncodeAll(t)[|Encode(t[0])|..];
      EncodingIsInjective(s[1..], t[1..]);
      assert s == [s[0]] + s[1..] && t == [t[0]] + t[1..];
    } else {
      ByteLenIsEncodedLength(s);
      ByteLenIsEncodedLength(t);
    }
  }

  // ---------- splitting at and joining with one separator character ----------

  function Split(s: string, sep: char): (parts: seq<string>)
    ensures |parts| >= 1
  {
    if s == "" then [""]
    else
      var rest := Split(s[1..], sep);
      if s[0] == sep then [""] + rest else [[s[0]] + rest[0]] + rest[1..]
  }

  function Join(parts: seq<string>, sep: char): string {
    if |parts| == 0 then ""
    else if |parts| == 1 then parts[0]
    else parts[0] + [sep] + Join(parts[1..], sep)
  }

  predicate NoneContains(parts: seq<string>, sep: char) {
    forall i :: 0 <= i < |parts| ==> sep !in parts[i]
  }

  /** Joining undoes splitting, and no part holds the separator. */
  lemma {:induction false} JoinSplit(s: string, sep: char)
    ensures Join(Split(s, sep), sep) == s
    ensures NoneContains(Split(s, sep), sep)
  {
    if s != "" {
      JoinSplit(s[1..], sep);
      var rest := Split(s[1..], sep);
      assert s == [s[0]] + s[1..];
      if s[0] == sep {
        assert ([""] + rest)[1..] == rest;
      } else {
        assert Split(s, sep)[1..] == rest[1..];
      }
    }
  }

  /** Splitting undoes joining when no part holds the separator. */
  lemma {:induction false} SplitJoin(parts: seq<string>, sep: char)
    requires |parts| >= 1 && NoneContains(parts, sep)
    ensures Split(Join(parts, sep), sep) == parts
    decreases |parts|, |if parts == [] then "" else parts[0]|
  {
    var p := parts[0];
    if p == "" {
      if |parts| > 1 {
        SplitJoin(parts[1..], sep);
        assert Join(parts, sep)[1..] == Join(parts[1..], sep);
        assert parts == [""] + parts[1..];
      }
    } else {
      var shorter := [p[1..]] + parts[1..];
      assert shorter[1..] == parts[1..];
      assert sep !in p[1..] by { assert forall c :: c in p[1..] ==> c in p; }
      SplitJoin(shorter, sep);
      assert p == [p[0]] + p[1..];
      assert Join(parts, sep)[1..] == Join(shorter, sep);
      assert Join(parts, sep)[0] == p[0];
      assert p[0] in p;
      assert parts == [p] + parts[1..];
    }
  }

  lemma {:induction false} JoinAppend(a: seq<string>, b: seq<string>, sep: char)
    requires |a| >= 1 && |b| >= 1
    ensures Join(a + b, sep) == Join(a, sep) + [sep] + Join(b, sep)
  {
    if |a| == 1 {
      assert (a + b)[1..] == b;
    } else {
      JoinAppend(a[1..], b, sep);
      assert (a + b)[1..] == a[1..] + b;
    }
  }

  lemma SplitAfterPrefix(p: string, s: string, sep: char)
    requires sep !in p
    ensures Split(p + [sep] + s, sep) == [p] + Split(s, sep)
  {
    JoinSplit(s, sep);
    var parts := [p] + Split(s, sep);
    assert parts[1..] == Split(s, sep);
    SplitJoin(parts, sep);
  }

  lemma SplitWithout(s: string, sep: char)
    requires sep !in s
    ensures Split(s, sep) == [s]
  {
    SplitJoin([s], sep);
  }

  // ---------- concatenation ----------

  function Concat(parts: seq<string>): string {
    if parts == [] then "" else parts[0] + Concat(parts[1..])
  }

  lemma {:induction false} ConcatAppend(a: seq<string>, b: seq<string>)
    ensures Concat(a + b) == Concat(a) + Concat(b)
  {
    if a == [] {
      assert a + b == b;
    } else {
      assert (a + b)[1..] == a[1..] + b;
      ConcatAppend(a[1..], b);
      Associative(a[0], Concat(a[1..]), Concat(b));
    }
  }

  lemma ConcatCons(head: string, tail: seq<string>)
    ensures Concat([head] + tail) == head + Concat(tail)
  {
    assert ([head] + tail)[1..] == tail;
  }

  lemma ConcatOne(s: string)
    ensures Concat([s]) == s
  {
    assert [s][1..] == [] && s + "" == s;
  }

  lemma ConcatTwo(s: string, t: string)
    ensures Concat([s, t]) == s + t
  {
    assert [s] + [t] == [s, t];
    ConcatAppend([s], [t]);
    ConcatOne(s);
    ConcatOne(t);
  }

  function Flatten<T>(groups: seq<seq<T>>): seq<T> {
    if groups == [] then [] else groups[0] + Flatten(groups[1..])
  }

  lemma {:induction false} FlattenAppend<T>(a: seq<seq<T>>, b: seq<seq<T>>)
    ensures Flatten(a + b) == Flatten(a) + Flatten(b)
  {
    if a == [] {
      assert a + b == b;
    } else {
      assert (a + b)[1..] == a[1..] + b;
      FlattenAppend(a[1..], b);
      Associative(a[0], Flatten(a[1..]), Flatten(b));
    }
  }

  // ---------- cutting a string behind every delimiter ----------

  /** `d` ends exactly at position `e` of `s`; the empty delimiter ends behind every character. */
  predicate EndsAt(s: string, d: string, e: int) {
    |d| <= e <= |s| && 1 <= e && s[e - |d|..e] == d
  }

  /** The end of the first delimiter at or behind `from`, or the end of `s`. */
  function FirstEnd(s: string, d: string, from: nat): (e: nat)
    requires s != "" && 1 <= from <= |s|
    ensures from <= e <= |s|
    ensures e < |s| ==> EndsAt(s, d, e)
    ensures forall i :: from <= i < e ==> !EndsAt(s, d, i)
    decreases |s| - from
  {
    if from == |s| || EndsAt(s, d, from) then from else FirstEnd(s, d, from + 1)
  }

  /** The non-empty pieces of `str::split_inclusive`: each runs up to and including the next delimiter. */
  function Items(s: string, d: string): (items: seq<string>)
    ensures s != "" ==> |items| >= 1
    ensures forall i :: 0 <= i < |items| ==> items[i] != ""
  {
    if s == "" then [] else
      var e := FirstEnd(s, d, 1);
      [s[..e]] + Items(s[e..], d)
  }

  /** `str::split_inclusive`: the empty delimiter also matches in front of the first character. */
  function SplitInclusive(s: string, d: string): seq<string> {
    if d == "" then [""] + Items(s, d) else Items(s, d)
  }

  /** What one item looks like: the delimiter ends nowhere inside it, and at its end when more text follows. */
  predicate IsItem(item: string, d: string, last: bool) {
    && item != ""
    && (forall j :: 1 <= j < |item| ==> !EndsAt(item, d, j))
    && (!last ==> EndsAt(item, d, |item|))
  }

  lemma FirstIsItem(s: string, d: string)
    requires s != ""
    ensures var e := FirstEnd(s, d, 1); IsItem(s[..e], d, e == |s|)
  {
    var e := FirstEnd(s, d, 1);
    var item := s[..e];
    forall j | 1 <= j <= e
      ensures EndsAt(item, d, j) == EndsAt(s, d, j)
    {
      if |d| <= j {
        assert item[j - |d|..j] == s[j - |d|..j];
      }
    }
  }

  predicate AllItems(items: seq<string>, d: string) {
    forall i :: 0 <= i < |items| ==> IsItem(items[i], d, i == |items| - 1)
  }

  lemma AllItemsCons(head: string, tail: seq<string>, d: string)
    ensures AllItems([head] + tail, d) <==> IsItem(head, d, tail == []) && AllItems(tail, d)
  {
    var items := [head] + tail;
    if AllItems(items, d) {
      assert IsItem(items[0], d, tail == []);
      forall i | 0 <= i < |tail|
        ensures IsItem(tail[i], d, i == |tail| - 1)
      {
        assert tail[i] == items[i + 1];
      }
    }
  }

  /** The items are a cut of `s` behind each occurrence of the delimiter and nowhere else. */
  lemma {:induction false} ItemsCut(s: string, d: string)
    ensures Concat(Items(s, d)) == s
    ensures AllItems(Items(s, d), d)
  {
    if s != "" {
      var e := FirstEnd(s, d, 1);
      var head, tail := s[..e], Items(s[e..], d);
      FirstIsItem(s, d);
      ItemsCut(s[e..], d);
      AllItemsCons(head, tail, d);
      ConcatCons(head, tail);
      assert Items(s, d) == [head] + tail;
      assert s == head + s[e..];
    }
  }

  lemma EndsAtPrefix(head: string, tail: string, d: string, j: int)
    requires 1 <= j <= |head|
    ensures EndsAt(head + tail, d, j) == EndsAt(head, d, j)
  {}

  lemma FirstEndIsItem(head: string, tail: string, d: string, last: bool)
    requires IsItem(head, d, last) && (last ==> tail == "")
    ensures FirstEnd(head + tail, d, 1) == |head|
  {
    forall j | 1 <= j <= |head|
      ensures EndsAt(head + tail, d, j) == EndsAt(head, d, j)
    {
      EndsAtPrefix(head, tail, d, j);
    }
  }

  /** Conversely, any list of items is what cutting its concatenation yields. */
  lemma {:induction false} ItemsUnique(items: seq<string>, d: string)
    requires AllItems(items, d)
    ensures Items(Concat(items), d) == items
  {
    if items != [] {
      var s, head, tail := Concat(items), items[0], items[1..];
      assert items == [head] + tail;
      AllItemsCons(head, tail, d);
      FirstEndIsItem(head, Concat(tail), d, tail == []);
      assert s[..|head|] == head && s[|head|..] == Concat(tail);
      ItemsUnique(tail, d);
    }
  }
}
