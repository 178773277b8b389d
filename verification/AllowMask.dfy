/** While a connect or disconnect handler runs, the bit of its client in a shared 64-bit mask lets the handler
    read the data of a client slot that is still, or already, free.  Handlers may cause further dispatches. */
module AllowMask {
  import opened Machine
  import opened Bits
  import opened Handlers

  const MAX_CLIENTS: nat := 64

  /** One dispatch for a client, with the dispatches its handler causes while it runs. */
  datatype Dispatch = Dispatch(id: nat, connecting: bool, verdict: Verdict, nested: seq<Dispatch>)

  ghost predicate ValidIds(d: Dispatch)
    decreases d
  {
    d.id < MAX_CLIENTS && forall n :: n in d.nested ==> ValidIds(n)
  }

  ghost predicate AllValidIds(ds: seq<Dispatch>) {
    forall d :: d in ds ==> ValidIds(d)
  }

  lemma U64Bit(mask: u64, id: nat)
    requires id < MAX_CLIENTS
    ensures 0 <= SetBit(mask, id) < TWO_TO_THE_64 && 0 <= ClearBit(mask, id) < TWO_TO_THE_64
  {
    Pow2Of64();
    BitRange(mask, id, 64);
  }

  lemma Pow2Of64()
    ensures Pow2(64) == TWO_TO_THE_64
  {
    assert Pow2(8) == 0x100 && Pow2(16) == 0x1_0000 && Pow2(24) == 0x100_0000 && Pow2(32) == 0x1_0000_0000;
    assert Pow2(40) == 0x100_0000_0000 && Pow2(48) == 0x1_0000_0000_0000 && Pow2(56) == 0x100_0000_0000_0000;
  }

  // ---------- what the code does ----------

  /** The mask after a dispatch, and the mask at the start and at the end of every handler that ran. */
  ghost function RunOne(d: Dispatch, mask: u64): (r: (u64, seq<u64>))
    requires ValidIds(d)
    decreases d, 1
  {
    U64Bit(mask, d.id);
    var inside: u64 := SetBit(mask, d.id);
    var (last, seen) := RunAll(d.nested, inside);
    U64Bit(last, d.id);
    (ClearBit(last, d.id), [inside] + seen + [last])
  }

  ghost function RunAll(ds: seq<Dispatch>, mask: u64): (r: (u64, seq<u64>))
    requires AllValidIds(ds)
    decreases ds, 0
  {
    if ds == [] then (mask, [])
    else
      var (next, seen) := RunOne(ds[0], mask);
      var (last, more) := RunAll(ds[1..], next);
      (last, seen + more)
  }

  class AllowFreeClient {
    const initialized: bool  // whether Python is up; if not, no handler runs
    var mask: u64
    ghost var seen: seq<u64>  // the mask at the start and at the end of every handler, in order

    constructor (initialized: bool)
      ensures this.initialized == initialized && mask == 0 && seen == []
    {
      this.initialized := initialized;
      mask := 0;
      seen := [];
    }

    /** The handler of a client: it runs, and whatever it does dispatches further events. */
    method Handle(nested: seq<Dispatch>)
      requires initialized && AllValidIds(nested)
      modifies this
      ensures mask == RunAll(nested, old(mask)).0
      ensures seen == old(seen) + [old(mask)] + RunAll(nested, old(mask)).1 + [mask]
      decreases nested, 1
    {
      seen := seen + [mask];
      DispatchAll(nested);
      seen := seen + [mask];
    }

    method DispatchAll(ds: seq<Dispatch>)
      requires AllValidIds(ds)
      modifies this
      ensures !initialized ==> mask == old(mask) && seen == old(seen)
      ensures initialized ==> mask == RunAll(ds, old(mask)).0
      ensures initialized ==> seen == old(seen) + RunAll(ds, old(mask)).1
      decreases ds, 0
    {
      if ds != [] {
        if ds[0].connecting {
          var _ := ClientConnect(ds[0]);
        } else {
          ClientDisconnect(ds[0]);
        }
        DispatchAll(ds[1..]);
      }
    }

    /** Returns the reason why the client may not connect. */
    method ClientConnect(d: Dispatch) returns (returned: Option<string>)
      requires ValidIds(d)
      modifies this
      ensures !initialized ==> mask == old(mask) && seen == old(seen) && returned.None?
      ensures initialized ==> mask == RunOne(d, old(mask)).0
      ensures initialized ==> seen == old(seen) + RunOne(d, old(mask)).1
      ensures initialized ==> (returned.None? <==> d.verdict.Other?)
      ensures initialized && d.verdict.False? ==> returned == Some("You are banned from this server.")
      ensures initialized && d.verdict.Text? ==> returned == Some(d.verdict.text)
      decreases d
    {
      if !initialized {
        return None;
      }
      U64Bit(mask, d.id);
      mask := SetBit(mask, d.id);
      Handle(d.nested);
      returned := match d.verdict
        case False => Some("You are banned from this server.")
        case Text(text) => Some(text)
        case Other => None;
      U64Bit(mask, d.id);
      mask := ClearBit(mask, d.id);
    }

    method ClientDisconnect(d: Dispatch)
      requires ValidIds(d)
      modifies this
      ensures !initialized ==> mask == old(mask) && seen == old(seen)
      ensures initialized ==> mask == RunOne(d, old(mask)).0
      ensures initialized ==> seen == old(seen) + RunOne(d, old(mask)).1
      decreases d
    {
      if !initialized {
        return;
      }
      U64Bit(mask, d.id);
      mask := SetBit(mask, d.id);
      Handle(d.nested);
      U64Bit(mask, d.id);
      mask := ClearBit(mask, d.id);
    }
  }

  // ---------- what it is for ----------

  /** The clients whose bit is set. */
  ghost function Ids(mask: u64): set<nat> {
    set k: nat | k < MAX_CLIENTS && TestBit(mask, k)
  }

  ghost function IdsOfEach(masks: seq<u64>): (sets: seq<set<nat>>)
    ensures |sets| == |masks| && forall i :: 0 <= i < |masks| ==> sets[i] == Ids(masks[i])
  {
    seq(|masks|, i requires 0 <= i < |masks| => Ids(masks[i]))
  }

  /** The clients being dispatched, at the start and at the end of every handler. */
  ghost function StacksOne(d: Dispatch, stack: set<nat>): seq<set<nat>>
    decreases d, 1
  {
    [stack + {d.id}] + StacksAll(d.nested, stack + {d.id}) + [stack + {d.id}]
  }

  ghost function StacksAll(ds: seq<Dispatch>, stack: set<nat>): seq<set<nat>>
    decreases ds, 0
  {
    if ds == [] then [] else StacksOne(ds[0], stack) + StacksAll(ds[1..], stack)
  }

  /** No client is dispatched while it is being dispatched. */
  ghost predicate DistinctOne(d: Dispatch, stack: set<nat>)
    decreases d, 1
  {
    d.id !in stack && DistinctAll(d.nested, stack + {d.id})
  }

  ghost predicate DistinctAll(ds: seq<Dispatch>, stack: set<nat>)
    decreases ds, 0
  {
    ds != [] ==> DistinctOne(ds[0], stack) && DistinctAll(ds[1..], stack)
  }

  ghost function IdsOne(d: Dispatch): set<nat>
    decreases d, 1
  {
    {d.id} + IdsAll(d.nested)
  }

  ghost function IdsAll(ds: seq<Dispatch>): set<nat>
    decreases ds, 0
  {
    if ds == [] then {} else IdsOne(ds[0]) + IdsAll(ds[1..])
  }

  lemma IdsAfterSet(mask: u64, id: nat)
    requires id < MAX_CLIENTS
    ensures 0 <= SetBit(mask, id) < TWO_TO_THE_64 && Ids(SetBit(mask, id)) == Ids(mask) + {id}
    ensures 0 <= ClearBit(mask, id) < TWO_TO_THE_64 && Ids(ClearBit(mask, id)) == Ids(mask) - {id}
  {
    U64Bit(mask, id);
    forall k: nat | k < MAX_CLIENTS
      ensures k in Ids(SetBit(mask, id)) <==> k in Ids(mask) + {id}
      ensures k in Ids(ClearBit(mask, id)) <==> k in Ids(mask) - {id}
    {
      TestAfterSet(mask, id, k);
      TestAfterClear(mask, id, k);
    }
  }

  /** Whatever is dispatched, and however it nests, exactly the dispatched clients have lost their bit. */
  lemma {:induction false} MaskAfterOne(d: Dispatch, mask: u64)
    requires ValidIds(d)
    ensures Ids(RunOne(d, mask).0) == Ids(mask) - IdsOne(d)
    decreases d, 1
  {
    IdsAfterSet(mask, d.id);
    var inside: u64 := SetBit(mask, d.id);
    MaskAfterAll(d.nested, inside);
    IdsAfterSet(RunAll(d.nested, inside).0, d.id);
  }

  lemma {:induction false} MaskAfterAll(ds: seq<Dispatch>, mask: u64)
    requires AllValidIds(ds)
    ensures Ids(RunAll(ds, mask).0) == Ids(mask) - IdsAll(ds)
    decreases ds, 0
  {
    if ds != [] {
      MaskAfterOne(ds[0], mask);
      MaskAfterAll(ds[1..], RunOne(ds[0], mask).0);
    }
  }

  lemma {:induction false} SameLengthOne(d: Dispatch, mask: u64, stack: set<nat>)
    requires ValidIds(d)
    ensures |RunOne(d, mask).1| == |StacksOne(d, stack)|
    decreases d, 1
  {
    U64Bit(mask, d.id);
    SameLengthAll(d.nested, SetBit(mask, d.id), stack + {d.id});
  }

  lemma {:induction false} SameLengthAll(ds: seq<Dispatch>, mask: u64, stack: set<nat>)
    requires AllValidIds(ds)
    ensures |RunAll(ds, mask).1| == |StacksAll(ds, stack)|
    decreases ds, 0
  {
    if ds != [] {
      SameLengthOne(ds[0], mask, stack);
      SameLengthAll(ds[1..], RunOne(ds[0], mask).0, stack);
    }
  }

  lemma ConcatEqual<T>(a: seq<T>, b: seq<T>, c: seq<T>, d: seq<T>)
    requires |a| == |c|
    ensures a + b == c + d <==> a == c && b == d
  {
    if a + b == c + d {
      assert a == (a + b)[..|a|] && c == (c + d)[..|c|];
      assert b == (a + b)[|a|..] && d == (c + d)[|c|..];
    }
  }

  lemma IdsOfConcat(a: seq<u64>, b: seq<u64>)
    ensures IdsOfEach(a + b) == IdsOfEach(a) + IdsOfEach(b)
  {}

  /** Started with the bits of the clients being dispatched, a dispatch shows every handler exactly the
      clients being dispatched and restores the mask, if and only if no client is dispatched twice at a time. */
  lemma {:induction false} MaskIsStackOne(d: Dispatch, mask: u64)
    requires ValidIds(d)
    ensures IdsOfEach(RunOne(d, mask).1) == StacksOne(d, Ids(mask)) && Ids(RunOne(d, mask).0) == Ids(mask)
       <==> DistinctOne(d, Ids(mask))
    decreases d, 1
  {
    var stack := Ids(mask);
    IdsAfterSet(mask, d.id);
    var inside: u64 := SetBit(mask, d.id);
    var last, seen := RunAll(d.nested, inside).0, RunAll(d.nested, inside).1;
    var stacks := StacksAll(d.nested, stack + {d.id});
    MaskIsStackAll(d.nested, inside);
    SameLengthAll(d.nested, inside, stack + {d.id});
    IdsAfterSet(last, d.id);
    IdsOfConcat([inside] + seen, [last]);
    IdsOfConcat([inside], seen);
    assert IdsOfEach([inside]) == [stack + {d.id}] && IdsOfEach([last]) == [Ids(last)];
    ConcatEqual([stack + {d.id}] + IdsOfEach(seen), [Ids(last)], [stack + {d.id}] + stacks, [stack + {d.id}]);
    ConcatEqual([stack + {d.id}], IdsOfEach(seen), [stack + {d.id}], stacks);
    assert [Ids(last)] == [stack + {d.id}] <==> Ids(last) == stack + {d.id} by {
      assert [Ids(last)][0] == Ids(last) && [stack + {d.id}][0] == stack + {d.id};
    }
    MaskAfterOne(d, mask);
  }

  lemma {:induction false} MaskIsStackAll(ds: seq<Dispatch>, mask: u64)
    requires AllValidIds(ds)
    ensures IdsOfEach(RunAll(ds, mask).1) == StacksAll(ds, Ids(mask)) && Ids(RunAll(ds, mask).0) == Ids(mask)
       <==> DistinctAll(ds, Ids(mask))
    decreases ds, 0
  {
    if ds != [] {
      var stack := Ids(mask);
      var next, seen := RunOne(ds[0], mask).0, RunOne(ds[0], mask).1;
      var more := RunAll(ds[1..], next).1;
      MaskAfterOne(ds[0], mask);
      MaskAfterAll(ds[1..], next);
      MaskIsStackOne(ds[0], mask);
      SameLengthOne(ds[0], mask, stack);
      IdsOfConcat(seen, more);
      ConcatEqual(IdsOfEach(seen), IdsOfEach(more), StacksOne(ds[0], stack), StacksAll(ds[1..], stack));
      if Ids(next) == stack {
        MaskIsStackAll(ds[1..], next);
      }
    } else {
      assert IdsOfEach([]) == [];
    }
  }

  /** From the empty mask: the mask always ends empty, and every handler sees exactly the clients being
      dispatched if and only if no client is dispatched while it is being dispatched. */
  lemma WholeRun(ds: seq<Dispatch>)
    requires AllValidIds(ds)
    ensures RunAll(ds, 0).0 == 0
    ensures IdsOfEach(RunAll(ds, 0).1) == StacksAll(ds, {}) <==> DistinctAll(ds, {})
  {
    forall k: nat | k < MAX_CLIENTS
      ensures !TestBit(0, k)
    {
      HighBitClear(0, 0, k);
    }
    assert Ids(0) == {};
    MaskAfterAll(ds, 0);
    MaskIsStackAll(ds, 0);
    var last := RunAll(ds, 0).0;
    forall k: nat | k < MAX_CLIENTS
      ensures TestBit(last, k) == TestBit(0, k)
    {
      assert k !in Ids(last);
    }
    Pow2Of64();
    SameBits(last, 0, 64);
  }

  /** A client that is dispatched again by its own handler: the outer handler ends without its permission. */
  lemma {:induction false} NestedInItself(verdict: Verdict)
    ensures var inner := Dispatch(0, false, verdict, []);
            var outer := Dispatch(0, true, verdict, [inner]);
            AllValidIds([outer]) && !DistinctAll([outer], {}) && RunAll([outer], 0).1 == [1, 1, 1, 0]
  {
    var inner := Dispatch(0, false, verdict, []);
    var outer := Dispatch(0, true, verdict, [inner]);
    assert ValidIds(inner) && ValidIds(outer);
    assert [inner][1..] == [] && [outer][1..] == [];
    assert SetBit(0, 0) == 1 && SetBit(1, 0) == 1 && ClearBit(1, 0) == 0 && ClearBit(0, 0) == 0;
    var none: (u64, seq<u64>) := RunAll([], 1);
    assert RunAll(inner.nested, 1) == none == (1, []);
    assert RunOne(inner, 1) == (0, [1] + [] + [1]);
    assert RunAll([], 0) == (0, []);
    assert RunAll([inner], 1) == (0, [1] + [] + [1] + []);
    assert RunOne(outer, 0) == (0, [1] + ([1] + [] + [1] + []) + [0]);
    assert {} + {0} == {0};
    assert !DistinctOne(inner, {0});
    assert !DistinctAll([inner], {0});
  }
}
