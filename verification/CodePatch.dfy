/** Finding code by a masked byte pattern, and overwriting code by a masked byte pattern. */
module CodePatch {
  import opened Machine

  /** The address space: the byte at every address. */
  type Bytes = int -> byte

  predicate Masked(mask: string, j: int) {
    0 <= j < |mask| && mask[j] == 'X'
  }

  /** The bytes from `at` on agree with the pattern wherever the mask says so. */
  predicate Matches(bytes: Bytes, at: int, pattern: seq<byte>, mask: string) {
    forall j :: 0 <= j < |pattern| && Masked(mask, j) ==> bytes(at + j) == pattern[j]
  }

  /** The comparison as the code makes it, one masked position after the other. */
  predicate AllEqual(bytes: Bytes, at: int, pattern: seq<byte>, mask: string, from: nat)
    requires from <= |pattern| <= |mask|
    ensures AllEqual(bytes, at, pattern, mask, from)
       <==> forall j :: from <= j < |pattern| && mask[j] == 'X' ==> bytes(at + j) == pattern[j]
    decreases |pattern| - from
  {
    from == |pattern| ||
    ((mask[from] == 'X' ==> pattern[from] == bytes(at + from)) && AllEqual(bytes, at, pattern, mask, from + 1))
  }

  ghost predicate LeastMatch(bytes: Bytes, start: int, end: int, pattern: seq<byte>, mask: string, i: int) {
    && start <= i < end && Matches(bytes, i, pattern, mask)
    && forall k :: start <= k < i ==> !Matches(bytes, k, pattern, mask)
  }

  /** The first address in the range at which the pattern matches. */
  function PatternSearch(bytes: Bytes, start: int, end: int, pattern: seq<byte>, mask: string): (r: Option<int>)
    requires |pattern| <= |mask|
    ensures r.Some? ==> LeastMatch(bytes, start, end, pattern, mask, r.value)
    ensures r.None? ==> forall k :: start <= k < end ==> !Matches(bytes, k, pattern, mask)
    decreases end - start
  {
    if start >= end then None
    else if AllEqual(bytes, start, pattern, mask, 0) then Some(start)
    else PatternSearch(bytes, start + 1, end, pattern, mask)
  }

  /** A memory mapping of the process. */
  datatype Region = Region(start: int, end: int, readable: bool)

  function PatternSearchModule(bytes: Bytes, regions: seq<Region>, pattern: seq<byte>, mask: string): (r: Option<int>)
    requires |pattern| <= |mask|
  {
    if regions == [] then None
    else if !regions[0].readable then PatternSearchModule(bytes, regions[1..], pattern, mask)
    else
      var found := PatternSearch(bytes, regions[0].start, regions[0].end, pattern, mask);
      if found.Some? then found else PatternSearchModule(bytes, regions[1..], pattern, mask)
  }

  predicate InReadable(regions: seq<Region>, a: int) {
    exists i :: 0 <= i < |regions| && regions[i].readable && regions[i].start <= a < regions[i].end
  }

  predicate Ascending(regions: seq<Region>) {
    forall i, j :: 0 <= i < j < |regions| ==> regions[i].end <= regions[j].start
  }

  lemma InReadableStep(regions: seq<Region>, a: int)
    requires regions != []
    ensures InReadable(regions, a) <==>
            (regions[0].readable && regions[0].start <= a < regions[0].end) || InReadable(regions[1..], a)
  {}

  /** The module search finds nothing exactly when no readable address matches. */
  lemma {:induction false} ModuleSearchComplete(bytes: Bytes, regions: seq<Region>, pattern: seq<byte>, mask: string)
    requires |pattern| <= |mask|
    ensures PatternSearchModule(bytes, regions, pattern, mask).None?
       <==> forall a :: InReadable(regions, a) ==> !Matches(bytes, a, pattern, mask)
  {
    if regions != [] {
      ModuleSearchComplete(bytes, regions[1..], pattern, mask);
      forall a
        ensures InReadable(regions, a) <==>
                (regions[0].readable && regions[0].start <= a < regions[0].end) || InReadable(regions[1..], a)
      {
        InReadableStep(regions, a);
      }
    }
  }

  /** What it finds is readable and matches; over ascending regions it is the least such address. */
  lemma {:induction false} ModuleSearchSound(bytes: Bytes, regions: seq<Region>, pattern: seq<byte>, mask: string, a: int)
    requires |pattern| <= |mask| && PatternSearchModule(bytes, regions, pattern, mask) == Some(a)
    ensures InReadable(regions, a) && Matches(bytes, a, pattern, mask)
    ensures Ascending(regions) ==> forall k :: InReadable(regions, k) && k < a ==> !Matches(bytes, k, pattern, mask)
  {
    var rest := regions[1..];
    InReadableStep(regions, a);
    var here := if regions[0].readable then PatternSearch(bytes, regions[0].start, regions[0].end, pattern, mask) else None;
    if here.None? {
      ModuleSearchSound(bytes, rest, pattern, mask, a);
    }
    if Ascending(regions) {
      forall i, j | 0 <= i < j < |rest|
        ensures rest[i].end <= rest[j].start
      {
        assert rest[i] == regions[i + 1] && rest[j] == regions[j + 1];
      }
      forall k | InReadable(regions, k) && k < a
        ensures !Matches(bytes, k, pattern, mask)
      {
        InReadableStep(regions, k);
      }
    }
  }

  /** Region `i` is the first readable one with a match, and `a` is the first match in it. */
  ghost predicate FirstIn(bytes: Bytes, regions: seq<Region>, pattern: seq<byte>, mask: string, i: int, a: int) {
    && 0 <= i < |regions| && regions[i].readable
    && LeastMatch(bytes, regions[i].start, regions[i].end, pattern, mask, a)
    && forall j, k :: 0 <= j < i && regions[j].readable && regions[j].start <= k < regions[j].end ==>
         !Matches(bytes, k, pattern, mask)
  }

  /** The regions are searched in the order in which they come, whatever that is. */
  lemma {:induction false} ModuleSearchOrder(bytes: Bytes, regions: seq<Region>, pattern: seq<byte>, mask: string, a: int)
    requires |pattern| <= |mask| && PatternSearchModule(bytes, regions, pattern, mask) == Some(a)
    ensures exists i :: FirstIn(bytes, regions, pattern, mask, i, a)
  {
    var rest := regions[1..];
    var here := if regions[0].readable then PatternSearch(bytes, regions[0].start, regions[0].end, pattern, mask) else None;
    if here.Some? {
      assert FirstIn(bytes, regions, pattern, mask, 0, a);
    } else {
      ModuleSearchOrder(bytes, rest, pattern, mask, a);
      var i :| FirstIn(bytes, rest, pattern, mask, i, a);
      assert regions[i + 1] == rest[i];
      forall j, k | 0 <= j < i + 1 && regions[j].readable && regions[j].start <= k < regions[j].end
        ensures !Matches(bytes, k, pattern, mask)
      {
        if j > 0 {
          assert regions[j] == rest[j - 1];
        }
      }
      assert FirstIn(bytes, regions, pattern, mask, i + 1, a);
    }
  }

  // ---------- patching ----------

  /** Writing is defined: no masked position lies behind the pattern. */
  predicate Patchable(pattern: seq<byte>, mask: string) {
    forall i :: 0 <= i < |mask| && Masked(mask, i) ==> i < |pattern|
  }

  /** The address space after the first `n` positions of the mask have been written. */
  function Patched(bytes: Bytes, at: int, pattern: seq<byte>, mask: string, n: nat): Bytes
    requires Patchable(pattern, mask)
  {
    (a: int) => if a - at < n && Masked(mask, a - at) then pattern[a - at] else bytes(a)
  }

  class AddressSpace {
    var bytes: Bytes

    constructor (bytes: Bytes)
      ensures this.bytes == bytes
    {
      this.bytes := bytes;
    }

    /** `writable` tells whether the page protection could be lifted. */
    method PatchByMask(origAddr: int, offset: int, pattern: seq<byte>, mask: string, writable: bool)
      requires Patchable(pattern, mask)
      modifies this
      ensures !writable ==> bytes == old(bytes)
      ensures writable ==> forall a :: bytes(a) == Patched(old(bytes), origAddr + offset, pattern, mask, |mask|)(a)
    {
      var at := origAddr + offset;
      if writable {
        for i := 0 to |mask|
          invariant forall a :: bytes(a) == Patched(old(bytes), at, pattern, mask, i)(a)
        {
          if mask[i] == 'X' {
            assert Masked(mask, i);
            var before, value := bytes, pattern[i];
            bytes := (a: int) => if a == at + i then value else before(a);
          }
        }
      }
    }
  }

  /** The pattern matches at a patched address, and every unmasked or outside byte is what it was. */
  lemma PatchMatches(bytes: Bytes, at: int, pattern: seq<byte>, mask: string)
    requires Patchable(pattern, mask)
    ensures var patched := Patched(bytes, at, pattern, mask, |mask|);
            && Matches(patched, at, pattern, mask)
            && (forall j :: 0 <= j < |mask| && j < |pattern| && mask[j] == 'X' ==> patched(at + j) == pattern[j])
            && (forall a :: !(0 <= a - at < |mask| && mask[a - at] == 'X') ==> patched(a) == bytes(a))
  {}

  /** A patch changes nothing exactly where the pattern matches already; so patching twice is patching once. */
  lemma PatchFixpoint(bytes: Bytes, at: int, pattern: seq<byte>, mask: string)
    requires Patchable(pattern, mask)
    ensures (forall a :: Patched(bytes, at, pattern, mask, |mask|)(a) == bytes(a)) <==> Matches(bytes, at, pattern, mask)
    ensures var once := Patched(bytes, at, pattern, mask, |mask|);
            forall a :: Patched(once, at, pattern, mask, |mask|)(a) == once(a)
  {}

  /** A later search whose range includes the patched address finds a match at or before it. */
  lemma SearchFindsPatch(bytes: Bytes, at: int, pattern: seq<byte>, mask: string, start: int, end: int)
    requires Patchable(pattern, mask) && |pattern| <= |mask| && start <= at < end
    ensures var found := PatternSearch(Patched(bytes, at, pattern, mask, |mask|), start, end, pattern, mask);
            found.Some? && found.value <= at
  {
    PatchMatches(bytes, at, pattern, mask);
  }
}
