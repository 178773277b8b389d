/** The hooks in front of four engine functions: a Python handler may drop, rewrite or pass each call, and may
    itself cause further calls while it runs. */
module HookFilters {
  import opened Machine
  import opened Handlers

  datatype Client = Client(id: int, hasGentity: bool)

  /** A call on its way to the engine. */
  datatype EngineCall =
    | ExecuteClientCommand(client: Option<Client>, text: string, clientOk: bool)
    | SendServerCommand(client: Option<Client>, text: string)
    | SetConfigstring(index: nat, text: string)
    | ComPrintf(text: string)

  /** A call, the answer of its handler, and the calls the handler causes. */
  datatype Occurrence = Occurrence(call: EngineCall, verdict: Verdict, nested: seq<Occurrence>)

  const MAX_I32: int := 0x7FFF_FFFF

  /** The dispatchers: what is left of a text. */
  function Dispatch(initialized: bool, verdict: Verdict, text: string): Option<string> {
    if !initialized then Some(text)
    else
      match verdict
      case False => None
      case Text(other) => Some(other)
      case Other => Some(text)
  }

  // ---------- the rule ----------

  /** The handler is asked about the call. */
  predicate Consulted(call: EngineCall) {
    match call
    case ExecuteClientCommand(client, text, ok) => text != "" && ok && client.Some? && client.value.hasGentity
    case SendServerCommand(client, text) => text != "" && (client.Some? ==> client.value.hasGentity)
    case SetConfigstring(index, _) => index <= MAX_I32 && index != 16 && !(662 <= index < 670)
    case ComPrintf(_) => true
  }

  /** The engine takes the call. */
  predicate Deliverable(call: EngineCall) {
    match call
    case ExecuteClientCommand(_, text, _) => text != ""
    case SendServerCommand(_, text) => text != ""
    case SetConfigstring(index, _) => index <= MAX_I32
    case ComPrintf(_) => true
  }

  /** False drops, a text replaces except for prints, anything else passes. */
  function Rewritten(call: EngineCall, verdict: Verdict): Option<EngineCall> {
    match verdict
    case False => None
    case Text(other) => Some(if call.ComPrintf? then call else call.(text := other))
    case Other => Some(call)
  }

  function Deliver(call: Option<EngineCall>): seq<EngineCall> {
    if call.Some? && Deliverable(call.value) then [call.value] else []
  }

  function TraceOne(initialized: bool, o: Occurrence): seq<EngineCall>
    decreases o, 1
  {
    if initialized && Consulted(o.call)
    then TraceAll(initialized, o.nested) + Deliver(Rewritten(o.call, o.verdict))
    else Deliver(Some(o.call))
  }

  function TraceAll(initialized: bool, os: seq<Occurrence>): seq<EngineCall>
    decreases os, 0
  {
    if os == [] then [] else TraceOne(initialized, os[0]) + TraceAll(initialized, os[1..])
  }

  /** The trace of a first call and of the calls behind it. */
  lemma TraceStep(initialized: bool, os: seq<Occurrence>, before: seq<EngineCall>)
    requires os != []
    ensures before + TraceAll(initialized, os) == before + TraceOne(initialized, os[0]) + TraceAll(initialized, os[1..])
  {
    var first, rest := TraceOne(initialized, os[0]), TraceAll(initialized, os[1..]);
    assert before + (first + rest) == before + first + rest;
  }

  // ---------- the hooks ----------

  class Hooks {
    const engine: bool       // whether the main engine is there
    const initialized: bool  // whether Python is up
    var trace: seq<EngineCall>

    constructor (engine: bool, initialized: bool)
      ensures this.engine == engine && this.initialized == initialized && trace == []
    {
      this.engine, this.initialized := engine, initialized;
      trace := [];
    }

    /** The handler of a call, as far as it calls back. */
    method Handle(nested: seq<Occurrence>)
      requires engine
      modifies this
      ensures trace == old(trace) + if initialized then TraceAll(initialized, nested) else []
      decreases nested, 1
    {
      if initialized {
        RunAll(nested);
      }
    }

    method RunAll(os: seq<Occurrence>)
      modifies this
      ensures trace == if engine then old(trace) + TraceAll(initialized, os) else old(trace)
      decreases os, 0
    {
      if os != [] {
        TraceStep(initialized, os, trace);
        match os[0].call {
          case ExecuteClientCommand(_, _, _) => OnClientCommand(os[0]);
          case SendServerCommand(_, _) => OnServerCommand(os[0]);
          case SetConfigstring(_, _) => OnConfigstring(os[0]);
          case ComPrintf(_) => OnPrint(os[0]);
        }
        RunAll(os[1..]);
      }
    }

    method OnClientCommand(o: Occurrence)
      requires o.call.ExecuteClientCommand?
      modifies this
      ensures trace == if engine then old(trace) + TraceOne(initialized, o) else old(trace)
      decreases o
    {
      var client, cmd := o.call.client, o.call.text;
      if !engine {
        return;
      }
      if cmd == "" {
        return;
      }
      var passedOn := cmd;
      if o.call.clientOk && client.Some? && client.value.hasGentity {
        Handle(o.nested);
        var result := Dispatch(initialized, o.verdict, cmd);
        if result.None? {
          return;
        }
        passedOn := result.value;
      }
      if passedOn != "" {
        trace := trace + [ExecuteClientCommand(client, passedOn, o.call.clientOk)];
      }
    }

    method OnServerCommand(o: Occurrence)
      requires o.call.SendServerCommand?
      modifies this
      ensures trace == if engine then old(trace) + TraceOne(initialized, o) else old(trace)
      decreases o
    {
      var client, passedOn := o.call.client, o.call.text;
      if !engine {
        return;
      }
      if passedOn == "" {
        return;
      }
      if client.None? || client.value.hasGentity {
        Handle(o.nested);
        var result := Dispatch(initialized, o.verdict, passedOn);
        if result.None? {
          return;
        }
        passedOn := result.value;
      }
      if passedOn != "" {
        trace := trace + [SendServerCommand(client, passedOn)];
      }
    }

    method OnConfigstring(o: Occurrence)
      requires o.call.SetConfigstring?
      modifies this
      ensures trace == if engine then old(trace) + TraceOne(initialized, o) else old(trace)
      decreases o
    {
      var index := o.call.index;
      if engine && index <= MAX_I32 {
        if index == 16 || 662 <= index < 670 {
          trace := trace + [SetConfigstring(index, o.call.text)];
        } else {
          Handle(o.nested);
          var result := Dispatch(initialized, o.verdict, o.call.text);
          if result.Some? {
            trace := trace + [SetConfigstring(index, result.value)];
          }
        }
      }
    }

    method OnPrint(o: Occurrence)
      requires o.call.ComPrintf?
      modifies this
      ensures trace == if engine then old(trace) + TraceOne(initialized, o) else old(trace)
      decreases o
    {
      if engine {
        Handle(o.nested);
        var result := Dispatch(initialized, o.verdict, o.call.text);
        if result.None? {
          return;
        }
        trace := trace + [ComPrintf(o.call.text)];
      }
    }
  }

  // ---------- what an answer does ----------

  /** A command of a client that is in the game reaches its handler: False drops it, a text replaces it unless it
      is empty, anything else passes it.  Any other command goes on as it is. */
  lemma ClientCommandAnswered(initialized: bool, o: Occurrence)
    requires o.call.ExecuteClientCommand?
    ensures var client, text, ok := o.call.client, o.call.text, o.call.clientOk;
            if initialized && text != "" && ok && client.Some? && client.value.hasGentity then
              && (o.verdict.False? ==> TraceOne(initialized, o) == TraceAll(true, o.nested))
              && (o.verdict.Other? ==>
                    TraceOne(initialized, o) == TraceAll(true, o.nested) + [ExecuteClientCommand(client, text, true)])
              && (o.verdict == Text("") ==> TraceOne(initialized, o) == TraceAll(true, o.nested))
              && (o.verdict.Text? && o.verdict.text != "" ==>
                    TraceOne(initialized, o) ==
                    TraceAll(true, o.nested) + [ExecuteClientCommand(client, o.verdict.text, true)])
            else TraceOne(initialized, o) == if text == "" then [] else [ExecuteClientCommand(client, text, ok)]
  {}

  /** The same for a command to a client that is in the game, or to all. */
  lemma ServerCommandAnswered(initialized: bool, o: Occurrence)
    requires o.call.SendServerCommand?
    ensures var client, text := o.call.client, o.call.text;
            if initialized && text != "" && (client.None? || client.value.hasGentity) then
              && (o.verdict.False? ==> TraceOne(initialized, o) == TraceAll(true, o.nested))
              && (o.verdict.Other? ==>
                    TraceOne(initialized, o) == TraceAll(true, o.nested) + [SendServerCommand(client, text)])
              && (o.verdict == Text("") ==> TraceOne(initialized, o) == TraceAll(true, o.nested))
              && (o.verdict.Text? && o.verdict.text != "" ==>
                    TraceOne(initialized, o) == TraceAll(true, o.nested) + [SendServerCommand(client, o.verdict.text)])
            else TraceOne(initialized, o) == if text == "" then [] else [SendServerCommand(client, text)]
  {}

  /** The same for a configstring, where the empty text is a text like any other.  Indices 16 and 662 to 669 bypass
      the handler, and indices beyond the machine type are ignored. */
  lemma ConfigstringAnswered(initialized: bool, o: Occurrence)
    requires o.call.SetConfigstring?
    ensures var index, text := o.call.index, o.call.text;
            if index > 0x7FFF_FFFF then TraceOne(initialized, o) == []
            else if initialized && index !in {16, 662, 663, 664, 665, 666, 667, 668, 669} then
              && (o.verdict.False? ==> TraceOne(initialized, o) == TraceAll(true, o.nested))
              && (o.verdict.Other? ==>
                    TraceOne(initialized, o) == TraceAll(true, o.nested) + [SetConfigstring(index, text)])
              && (o.verdict.Text? ==>
                    TraceOne(initialized, o) == TraceAll(true, o.nested) + [SetConfigstring(index, o.verdict.text)])
            else TraceOne(initialized, o) == [SetConfigstring(index, text)]
  {}

  /** A print is dropped by False and otherwise goes on with its own text, even if the handler answers a text. */
  lemma PrintAnswered(initialized: bool, o: Occurrence)
    requires o.call.ComPrintf?
    ensures if initialized then
              && (o.verdict.False? ==> TraceOne(initialized, o) == TraceAll(true, o.nested))
              && (!o.verdict.False? ==>
                    TraceOne(initialized, o) == TraceAll(true, o.nested) + [ComPrintf(o.call.text)])
            else TraceOne(initialized, o) == [ComPrintf(o.call.text)]
  {}

  // ---------- whole runs ----------

  predicate AllDeliverable(calls: seq<EngineCall>) {
    forall i :: 0 <= i < |calls| ==> Deliverable(calls[i])
  }

  /** Whatever the handlers answer and cause, no empty command reaches the engine. */
  lemma {:induction false} NothingUndeliverableOne(initialized: bool, o: Occurrence)
    ensures AllDeliverable(TraceOne(initialized, o))
    decreases o, 1
  {
    NothingUndeliverable(initialized, o.nested);
  }

  lemma {:induction false} NothingUndeliverable(initialized: bool, os: seq<Occurrence>)
    ensures AllDeliverable(TraceAll(initialized, os))
    decreases os, 0
  {
    if os != [] {
      NothingUndeliverableOne(initialized, os[0]);
      NothingUndeliverable(initialized, os[1..]);
    }
  }

  function Filter(calls: seq<EngineCall>): seq<EngineCall> {
    if calls == [] then [] else Deliver(Some(calls[0])) + Filter(calls[1..])
  }

  lemma {:induction false} FilterAppend(a: seq<EngineCall>, b: seq<EngineCall>)
    ensures Filter(a + b) == Filter(a) + Filter(b)
  {
    if a == [] {
      assert a + b == b;
    } else {
      assert (a + b)[1..] == a[1..] + b;
      FilterAppend(a[1..], b);
      assert Deliver(Some(a[0])) + (Filter(a[1..]) + Filter(b)) == Deliver(Some(a[0])) + Filter(a[1..]) + Filter(b);
    }
  }

  /** Only the calls themselves, without what handlers cause. */
  function Calls(os: seq<Occurrence>): (calls: seq<EngineCall>)
    ensures |calls| == |os| && forall i :: 0 <= i < |os| ==> calls[i] == os[i].call
  {
    seq(|os|, i requires 0 <= i < |os| => os[i].call)
  }

  /** Without Python the engine gets the calls as they are, less the empty commands. */
  lemma {:induction false} UninitializedPasses(os: seq<Occurrence>)
    ensures TraceAll(false, os) == Filter(Calls(os))
  {
    if os != [] {
      assert Calls(os)[1..] == Calls(os[1..]);
      UninitializedPasses(os[1..]);
    }
  }

  /** All calls in the order in which they end, as though every handler were asked and passed its call. */
  function AllCallsOne(o: Occurrence): seq<EngineCall>
    decreases o, 1
  {
    (if Consulted(o.call) then AllCalls(o.nested) else []) + [o.call]
  }

  function AllCalls(os: seq<Occurrence>): seq<EngineCall>
    decreases os, 0
  {
    if os == [] then [] else AllCallsOne(os[0]) + AllCalls(os[1..])
  }

  ghost predicate PassesOne(o: Occurrence)
    decreases o, 1
  {
    o.verdict.Other? && Passes(o.nested)
  }

  /** No handler drops or rewrites anything. */
  ghost predicate Passes(os: seq<Occurrence>)
    decreases os, 0
  {
    os != [] ==> PassesOne(os[0]) && Passes(os[1..])
  }

  /** Handlers that only watch are invisible: the engine gets every call, the nested ones first, less the
      empty commands. */
  lemma {:induction false} WatchersPassOne(o: Occurrence)
    requires PassesOne(o)
    ensures TraceOne(true, o) == Filter(AllCallsOne(o))
    decreases o, 1
  {
    var before := if Consulted(o.call) then AllCalls(o.nested) else [];
    WatchersPass(o.nested);
    FilterAppend(before, [o.call]);
    assert [o.call][1..] == [];
    assert Filter([o.call]) == Deliver(Some(o.call));
  }

  lemma {:induction false} WatchersPass(os: seq<Occurrence>)
    requires Passes(os)
    ensures TraceAll(true, os) == Filter(AllCalls(os))
    decreases os, 0
  {
    if os != [] {
      WatchersPassOne(os[0]);
      WatchersPass(os[1..]);
      FilterAppend(AllCallsOne(os[0]), AllCalls(os[1..]));
    }
  }

  /** The kind of a call, its client or index, without its text. */
  function Address(call: EngineCall): EngineCall {
    call.(text := "")
  }

  /** `a` is what is left of `b` after leaving calls out and changing the texts of calls other than prints. */
  ghost predicate Thinned(a: seq<EngineCall>, b: seq<EngineCall>)
    decreases |b|
  {
    if b == [] then a == []
    else
      || Thinned(a, b[1..])
      || (a != [] && Address(a[0]) == Address(b[0]) && (b[0].ComPrintf? ==> a[0] == b[0]) && Thinned(a[1..], b[1..]))
  }

  lemma {:induction false} ThinnedAppend(a: seq<EngineCall>, b: seq<EngineCall>, c: seq<EngineCall>, d: seq<EngineCall>)
    requires Thinned(a, b) && Thinned(c, d)
    ensures Thinned(a + c, b + d)
    decreases |b|
  {
    if b == [] {
      assert a + c == c && b + d == d;
    } else {
      assert (b + d)[1..] == b[1..] + d;
      if Thinned(a, b[1..]) {
        ThinnedAppend(a, b[1..], c, d);
      } else {
        ThinnedAppend(a[1..], b[1..], c, d);
        assert (a + c)[1..] == a[1..] + c;
      }
    }
  }

  lemma ThinnedSingle(call: EngineCall, verdict: Verdict)
    ensures Thinned(Deliver(Some(call)), [call]) && Thinned(Deliver(Rewritten(call, verdict)), [call])
  {}

  /** Whatever the handlers answer: the engine never gets a call that was not made, never one twice, never
      two in another order, and prints are never changed. */
  lemma {:induction false} NothingInventedOne(o: Occurrence)
    ensures Thinned(TraceOne(true, o), AllCallsOne(o))
    decreases o, 1
  {
    ThinnedSingle(o.call, o.verdict);
    if Consulted(o.call) {
      NothingInvented(o.nested);
      ThinnedAppend(TraceAll(true, o.nested), AllCalls(o.nested), Deliver(Rewritten(o.call, o.verdict)), [o.call]);
    } else {
      assert [] + [o.call] == [o.call];
    }
  }

  lemma {:induction false} NothingInvented(os: seq<Occurrence>)
    ensures Thinned(TraceAll(true, os), AllCalls(os))
    decreases os, 0
  {
    if os != [] {
      NothingInventedOne(os[0]);
      NothingInvented(os[1..]);
      ThinnedAppend(TraceOne(true, os[0]), AllCallsOne(os[0]), TraceAll(true, os[1..]), AllCalls(os[1..]));
    }
  }

  // ---------- which calls arrive ----------

  /** The handler of the occurrence runs. */
  predicate Asked(initialized: bool, o: Occurrence) {
    && initialized
    && match o.call
       case ExecuteClientCommand(client, text, ok) => text != "" && ok && client.Some? && client.value.hasGentity
       case SendServerCommand(client, text) => text != "" && (client.None? || client.value.hasGentity)
       case SetConfigstring(index, _) =>
         index <= 0x7FFF_FFFF && index !in {16, 662, 663, 664, 665, 666, 667, 668, 669}
       case ComPrintf(_) => true
  }

  /** The text under which a call arrives: its own, or its handler's answer unless it is a print. */
  function FinalText(initialized: bool, o: Occurrence): string {
    if Asked(initialized, o) && o.verdict.Text? && !o.call.ComPrintf? then o.verdict.text else o.call.text
  }

  /** The call is not answered with False, and the engine can take it. */
  predicate Arrives(initialized: bool, o: Occurrence) {
    && !(Asked(initialized, o) && o.verdict.False?)
    && match o.call
       case ExecuteClientCommand(_, text, _) => text != "" && FinalText(initialized, o) != ""
       case SendServerCommand(_, text) => text != "" && FinalText(initialized, o) != ""
       case SetConfigstring(index, _) => index <= 0x7FFF_FFFF
       case ComPrintf(_) => true
  }

  function HappenOne(initialized: bool, o: Occurrence): seq<Occurrence>
    decreases o, 1
  {
    (if Asked(initialized, o) then Happen(initialized, o.nested) else []) + [o]
  }

  /** All occurrences that happen, those that a handler causes included, in the order in which they end. */
  function Happen(initialized: bool, os: seq<Occurrence>): seq<Occurrence>
    decreases os, 0
  {
    if os == [] then [] else HappenOne(initialized, os[0]) + Happen(initialized, os[1..])
  }

  /** The trace consists of exactly those calls that arrive, in order, each with its final text. */
  ghost predicate Delivers(initialized: bool, os: seq<Occurrence>, trace: seq<EngineCall>)
    decreases |os|
  {
    if os == [] then trace == []
    else if Arrives(initialized, os[0]) then
      && trace != []
      && trace[0] == os[0].call.(text := FinalText(initialized, os[0]))
      && Delivers(initialized, os[1..], trace[1..])
    else Delivers(initialized, os[1..], trace)
  }

  lemma {:induction false} DeliversAppend(initialized: bool, a: seq<Occurrence>, s: seq<EngineCall>,
                                          b: seq<Occurrence>, t: seq<EngineCall>)
    requires Delivers(initialized, a, s) && Delivers(initialized, b, t)
    ensures Delivers(initialized, a + b, s + t)
    decreases |a|
  {
    if a == [] {
      assert a + b == b && s + t == t;
    } else {
      assert (a + b)[1..] == a[1..] + b;
      if Arrives(initialized, a[0]) {
        DeliversAppend(initialized, a[1..], s[1..], b, t);
        assert (s + t)[1..] == s[1..] + t;
      } else {
        DeliversAppend(initialized, a[1..], s, b, t);
      }
    }
  }

  /** The last call of an occurrence, behind those its handler causes. */
  lemma {:induction false} LastCall(initialized: bool, o: Occurrence)
    ensures var last := if Arrives(initialized, o) then [o.call.(text := FinalText(initialized, o))] else [];
            && TraceOne(initialized, o) == (if Asked(initialized, o) then TraceAll(initialized, o.nested) else []) + last
            && Delivers(initialized, [o], last)
  {
    assert [o][1..] == [];
    match o.call {
      case ExecuteClientCommand(_, _, _) => ClientCommandAnswered(initialized, o);
      case SendServerCommand(_, _) => ServerCommandAnswered(initialized, o);
      case SetConfigstring(_, _) => ConfigstringAnswered(initialized, o);
      case ComPrintf(_) => PrintAnswered(initialized, o);
    }
  }

  lemma {:induction false} DeliversOne(initialized: bool, o: Occurrence)
    ensures Delivers(initialized, HappenOne(initialized, o), TraceOne(initialized, o))
    decreases o, 1
  {
    LastCall(initialized, o);
    var last := if Arrives(initialized, o) then [o.call.(text := FinalText(initialized, o))] else [];
    if Asked(initialized, o) {
      DeliversAll(initialized, o.nested);
      DeliversAppend(initialized, Happen(initialized, o.nested), TraceAll(initialized, o.nested), [o], last);
    } else {
      assert [] + [o] == [o] && [] + last == last;
    }
  }

  /** Over every run: a call that happens reaches the engine if and only if the engine can take it and its handler,
      if asked, does not answer False; it carries its own text or its handler's answer; and all in order. */
  lemma {:induction false} DeliversAll(initialized: bool, os: seq<Occurrence>)
    ensures Delivers(initialized, Happen(initialized, os), TraceAll(initialized, os))
    decreases os, 0
  {
    if os != [] {
      DeliversOne(initialized, os[0]);
      DeliversAll(initialized, os[1..]);
      DeliversAppend(initialized, HappenOne(initialized, os[0]), TraceOne(initialized, os[0]),
                     Happen(initialized, os[1..]), TraceAll(initialized, os[1..]));
    }
  }

  /** Which calls a trace holds, whatever their order. */
  lemma {:induction false} DeliveredCalls(initialized: bool, os: seq<Occurrence>, trace: seq<EngineCall>, call: EngineCall)
    requires Delivers(initialized, os, trace)
    ensures call in trace <==>
            exists o :: o in os && Arrives(initialized, o) && call == o.call.(text := FinalText(initialized, o))
    decreases |os|
  {
    if os != [] {
      assert os == [os[0]] + os[1..];
      if Arrives(initialized, os[0]) {
        assert trace == [trace[0]] + trace[1..];
        DeliveredCalls(initialized, os[1..], trace[1..], call);
      } else {
        DeliveredCalls(initialized, os[1..], trace, call);
      }
    }
  }
}
