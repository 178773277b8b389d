/** Safety of the hook life cycle over whole runs: no enabled detour is lost, the originals stay reachable,
    and a server with hooks calls the game exactly as a server without them. */
module VmProperties {
  import opened Machine
  import opened VmHooks

  // ---------- ownership of detours ----------

  /** Stored detours are enabled and stored once; only created detours are enabled. */
  ghost predicate Valid(d: Detours) {
    && (forall f :: f in d.slots ==> f in DETOURED && d.slots[f] in d.enabled)
    && (forall f, g :: f in d.slots && g in d.slots && d.slots[f] == d.slots[g] ==> f == g)
    && (forall h :: h in d.enabled ==> h < d.created)
  }

  ghost function Stored(d: Detours): set<nat> {
    set f | f in d.slots :: d.slots[f]
  }

  /** Detours that are enabled although no slot holds them. */
  ghost function Leaked(d: Detours): set<nat> {
    d.enabled - Stored(d)
  }

  lemma EnabledAre(d: Detours)
    requires Valid(d)
    ensures d.enabled == Stored(d) + Leaked(d)
  {}

  /** Stored detours of the given functions that the library would fail to disable. */
  ghost function Stuck(d: Detours, fs: seq<VmFunction>, env: Env): set<nat> {
    set f | f in fs && f in d.slots && f !in env.disableable :: d.slots[f]
  }

  lemma NoneStuck(d: Detours, fs: seq<VmFunction>, env: Env)
    requires forall f :: f in fs ==> f in env.disableable
    ensures Stuck(d, fs, env) == {}
  {}

  /** How many detours are installed before the first failure. */
  function Installed(fs: seq<VmFunction>, env: Env): (n: nat)
    ensures n <= |fs|
  {
    if fs == [] || fs[0] !in env.creatable || fs[0] !in env.enableable then 0 else 1 + Installed(fs[1..], env)
  }

  lemma {:induction false} InstalledAll(fs: seq<VmFunction>, env: Env)
    ensures Installed(fs, env) == |fs| <==> forall f :: f in fs ==> f in env.creatable && f in env.enableable
  {
    if fs != [] {
      InstalledAll(fs[1..], env);
      assert fs == [fs[0]] + fs[1..];
    }
  }

  ghost predicate Distinct(fs: seq<VmFunction>) {
    && (forall i, j :: 0 <= i < j < |fs| ==> fs[i] != fs[j])
    && (forall f :: f in fs ==> f in DETOURED)
  }

  lemma DistinctCons(fs: seq<VmFunction>)
    requires fs != [] && Distinct(fs)
    ensures Distinct(fs[1..]) && fs[0] !in fs[1..] && fs == [fs[0]] + fs[1..]
  {}

  lemma StoredAfterUpdate(slots: map<VmFunction, nat>, f: VmFunction, h: nat)
    requires forall a, b :: a in slots && b in slots && slots[a] == slots[b] ==> a == b
    requires forall a :: a in slots ==> slots[a] != h
    ensures var after := slots[f := h];
            (set a | a in after :: after[a]) ==
            (set a | a in slots :: slots[a]) - (if f in slots then {slots[f]} else {}) + {h}
  {
    var after, before := slots[f := h], set a | a in slots :: slots[a];
    assert after[f] == h;
    forall x | x in before && (f in slots ==> x != slots[f])
      ensures x in (set a | a in after :: after[a])
    {
      var a :| a in slots && slots[a] == x;
      assert after[a] == x;
    }
  }

  lemma StuckOne(d: Detours, f: VmFunction, env: Env)
    ensures Stuck(d, [f], env) == if f in d.slots && f !in env.disableable then {d.slots[f]} else {}
  {}

  lemma InstallKeepsValid(d: Detours, f: VmFunction, env: Env)
    requires Valid(d) && f in DETOURED
    ensures Valid(Install(d, f, env).0)
  {}

  lemma {:induction false} InstallOne(d: Detours, f: VmFunction, env: Env)
    requires Valid(d) && f in DETOURED
    ensures var (next, outcome) := Install(d, f, env);
            && Valid(next)
            && (outcome.Ok? <==> f in env.creatable && f in env.enableable)
            && Leaked(next) == Leaked(d) + (if outcome.Ok? then Stuck(d, [f], env) else {})
            && next.slots == (if outcome.Ok? then d.slots[f := d.created] else d.slots)
  {
    InstallKeepsValid(d, f, env);
    if f in env.creatable && f in env.enableable {
      StuckOne(d, f, env);
      StoredAfterUpdate(d.slots, f, d.created);
    }
  }

  lemma StuckCons(d: Detours, next: Detours, f: VmFunction, fs: seq<VmFunction>, env: Env)
    requires f !in fs && forall g :: g in fs ==> (g in d.slots <==> g in next.slots)
    requires forall g :: g in fs && g in d.slots ==> d.slots[g] == next.slots[g]
    ensures Stuck(d, [f] + fs, env) == Stuck(d, [f], env) + Stuck(next, fs, env)
  {}

  lemma StuckPrefix(d: Detours, next: Detours, fs: seq<VmFunction>, n: nat, env: Env)
    requires 1 <= n <= |fs| && Distinct(fs)
    requires forall g :: g != fs[0] ==> (g in d.slots <==> g in next.slots)
    requires forall g :: g != fs[0] && g in d.slots ==> d.slots[g] == next.slots[g]
    ensures Stuck(d, fs[..n], env) == Stuck(d, [fs[0]], env) + Stuck(next, fs[1..][..n - 1], env)
  {
    var f, rest := fs[0], fs[1..][..n - 1];
    assert fs[..n] == [f] + rest;
    StuckCons(d, next, f, rest, env);
  }

  /** The outcome when the first `n` functions could be detoured. */
  function OutcomeAt(fs: seq<VmFunction>, n: nat, env: Env): Outcome
    requires n <= |fs|
  {
    if n == |fs| then Ok
    else if fs[n] !in env.creatable then Err(DetourCouldNotBeCreated(fs[n]))
    else Err(DetourCouldNotBeEnabled(fs[n]))
  }

  /** Installing, up to the first failure: the outcome and the lost detours. */
  lemma {:induction false} InstallLeaks(d: Detours, fs: seq<VmFunction>, env: Env)
    requires Valid(d) && Distinct(fs)
    ensures var (next, outcome) := InstallAll(d, fs, env); var n := Installed(fs, env);
            && Valid(next)
            && outcome == OutcomeAt(fs, n, env)
            && Leaked(next) == Leaked(d) + Stuck(d, fs[..n], env)
    decreases |fs|
  {
    if fs != [] {
      var f, rest, n := fs[0], fs[1..], Installed(fs, env);
      var next := Install(d, f, env).0;
      InstallOne(d, f, env);
      DistinctCons(fs);
      if n > 0 {
        InstallLeaks(next, rest, env);
        StuckPrefix(d, next, fs, n, env);
      } else {
        assert Stuck(d, [], env) == {};
      }
    }
  }

  /** Installing, up to the first failure: each installed function has a new detour in its slot. */
  lemma {:induction false} InstallSlots(d: Detours, fs: seq<VmFunction>, env: Env)
    requires Distinct(fs)
    ensures var next := InstallAll(d, fs, env).0; var n := Installed(fs, env);
            && (forall i :: 0 <= i < n ==> fs[i] in next.slots && next.slots[fs[i]] == d.created + i)
            && (forall f :: f !in fs[..n] ==> (f in next.slots <==> f in d.slots))
            && (forall f :: f !in fs[..n] && f in d.slots ==> next.slots[f] == d.slots[f])
    decreases |fs|
  {
    if fs != [] {
      var f, rest, n := fs[0], fs[1..], Installed(fs, env);
      DistinctCons(fs);
      if n > 0 {
        var next := Install(d, f, env).0;
        assert next.slots == d.slots[f := d.created] && next.created == d.created + 1;
        InstallSlots(next, rest, env);
        assert InstallAll(d, fs, env) == InstallAll(next, rest, env);
        assert fs[..n] == [f] + rest[..n - 1];
        assert forall g :: g in rest[..n - 1] ==> g in rest;
      }
    }
  }

  /** At the end of every hook, early error returns included: the outcome, the stored detours, and the lost
      ones, which are those lost before and those that were replaced but could not be disabled. */
  lemma {:induction false} HookExact(vm: Vm, env: Env)
    requires Valid(vm.detours)
    ensures var (next, outcome) := HookVm(vm, env); var n := Installed(DETOURED, env);
            && Valid(next.detours)
            && (outcome.Ok? <==> forall f :: f in DETOURED ==> f in env.creatable && f in env.enableable)
            && outcome == OutcomeAt(DETOURED, n, env)
            && (forall i :: 0 <= i < n ==>
                  DETOURED[i] in next.detours.slots && next.detours.slots[DETOURED[i]] == vm.detours.created + i)
            && (forall i :: n <= i < 4 ==>
                  (DETOURED[i] in next.detours.slots <==> DETOURED[i] in vm.detours.slots))
            && (forall i :: n <= i < 4 && DETOURED[i] in vm.detours.slots ==>
                  next.detours.slots[DETOURED[i]] == vm.detours.slots[DETOURED[i]])
            && Leaked(next.detours) == Leaked(vm.detours) + Stuck(vm.detours, DETOURED[..n], env)
  {
    InstallLeaks(vm.detours, DETOURED, env);
    InstallSlots(vm.detours, DETOURED, env);
    InstalledAll(DETOURED, env);
    forall i | Installed(DETOURED, env) <= i < 4
      ensures DETOURED[i] !in DETOURED[..Installed(DETOURED, env)]
    {}
  }

  /** A hook replaces the three table entries even when it then fails, and touches nothing but memory and detours. */
  lemma {:induction false} HookWritesTable(vm: Vm, env: Env)
    ensures var next := HookVm(vm, env).0;
            && next == vm.(words := next.words, detours := next.detours)
            && forall a :: Read(next.words, a) ==
                           if a == vm.vmCallTable + 0x18 then Code.Hook(InitGame)
                           else if a == vm.vmCallTable + 0x8 then Code.Hook(RunFrame)
                           else if a == vm.vmCallTable then Code.Hook(ShutdownGame)
                           else Read(vm.words, a)
  {}

  /** A successful hook leaves exactly four stored detours, all new and enabled; if nothing was lost before
      and the old ones can be disabled, nothing else is enabled. */
  lemma {:induction false} HookSucceeds(vm: Vm, env: Env)
    requires Valid(vm.detours) && HookVm(vm, env).1.Ok?
    ensures var next, first := HookVm(vm, env).0.detours, vm.detours.created;
            && Stored(next) == {first, first + 1, first + 2, first + 3} && Stored(next) <= next.enabled
            && (Leaked(vm.detours) == {} && Stuck(vm.detours, DETOURED, env) == {} ==> next.enabled == Stored(next))
  {
    InstallEvery(vm.detours, DETOURED, env);
    EnabledAre(HookVm(vm, env).0.detours);
  }

  /** Which detour is in which slot after a successful hook. */
  lemma {:induction false} HookFillsSlots(vm: Vm, env: Env)
    requires Valid(vm.detours) && HookVm(vm, env).1.Ok?
    ensures var next, first := HookVm(vm, env).0.detours, vm.detours.created;
            next.slots ==
            map[ClientConnect := first, G_StartKamikaze := first + 1, ClientSpawn := first + 2, G_Damage := first + 3]
  {
    SlotsOf(vm.detours, DETOURED, env);
  }

  lemma {:induction false} SlotsOf(d: Detours, fs: seq<VmFunction>, env: Env)
    requires Valid(d) && Distinct(fs) && fs == [ClientConnect, G_StartKamikaze, ClientSpawn, G_Damage]
    requires InstallAll(d, fs, env).1.Ok?
    ensures InstallAll(d, fs, env).0.slots ==
            map[fs[0] := d.created, fs[1] := d.created + 1, fs[2] := d.created + 2, fs[3] := d.created + 3]
  {
    InstallLeaks(d, fs, env);
    InstallSlots(d, fs, env);
    FourSlots(InstallAll(d, fs, env).0, fs, d.created);
  }

  lemma FourSlots(d: Detours, fs: seq<VmFunction>, first: nat)
    requires Valid(d) && |fs| == 4 && Distinct(fs) && forall f :: f in DETOURED ==> f in fs
    requires forall i :: 0 <= i < 4 ==> fs[i] in d.slots && d.slots[fs[i]] == first + i
    ensures d.slots == map[fs[0] := first, fs[1] := first + 1, fs[2] := first + 2, fs[3] := first + 3]
  {}

  lemma InstallEvery(d: Detours, fs: seq<VmFunction>, env: Env)
    requires Valid(d) && Distinct(fs) && |fs| == 4 && forall f :: f in DETOURED ==> f in fs
    requires InstallAll(d, fs, env).1.Ok?
    ensures var next, first := InstallAll(d, fs, env).0, d.created;
            && Valid(next)
            && Stored(next) == {first, first + 1, first + 2, first + 3}
            && Leaked(next) == Leaked(d) + Stuck(d, fs, env)
  {
    InstallLeaks(d, fs, env);
    InstallSlots(d, fs, env);
    assert fs[..4] == fs;
    FourStored(InstallAll(d, fs, env).0, fs, d.created);
  }

  lemma FourStored(d: Detours, fs: seq<VmFunction>, first: nat)
    requires |fs| == 4 && forall i :: 0 <= i < 4 ==> fs[i] in d.slots && d.slots[fs[i]] == first + i
    requires forall f :: f in d.slots ==> f in fs
    ensures Stored(d) == {first, first + 1, first + 2, first + 3}
  {
    forall h | h in {first, first + 1, first + 2, first + 3}
      ensures h in Stored(d)
    {
      assert d.slots[fs[h - first]] == h;
    }
  }

  lemma StoredAfterRemoval(d: Detours, f: VmFunction, env: Env)
    requires Valid(d)
    ensures Stored(Remove(d, f, env)) == Stored(d) - (if f in d.slots then {d.slots[f]} else {})
  {
    var next := Remove(d, f, env);
    forall h | h in Stored(d) && !(f in d.slots && d.slots[f] == h)
      ensures h in Stored(next)
    {
      var g :| g in d.slots && d.slots[g] == h;
      assert g in next.slots && next.slots[g] == h;
    }
  }

  lemma RemoveOne(d: Detours, f: VmFunction, env: Env)
    requires Valid(d)
    ensures var next := Remove(d, f, env);
            Valid(next) && Leaked(next) == Leaked(d) + Stuck(d, [f], env)
  {
    StoredAfterRemoval(d, f, env);
    StuckOne(d, f, env);
  }

  lemma {:induction false} RemoveExact(d: Detours, fs: seq<VmFunction>, env: Env)
    requires Valid(d) && Distinct(fs)
    ensures var next := RemoveAll(d, fs, env);
            && Valid(next)
            && Leaked(next) == Leaked(d) + Stuck(d, fs, env)
            && (forall f :: f in next.slots <==> f in d.slots && f !in fs)
    decreases |fs|
  {
    if fs != [] {
      var f, rest := fs[0], fs[1..];
      RemoveOne(d, f, env);
      DistinctCons(fs);
      RemoveExact(Remove(d, f, env), rest, env);
      StuckCons(d, Remove(d, f, env), f, rest, env);
    }
  }

  /** After unhooking no slot is occupied; enabled are only detours lost before or impossible to disable. */
  lemma {:induction false} UnhookExact(vm: Vm, env: Env)
    requires Valid(vm.detours)
    ensures var next := UnhookVm(vm, env).detours;
            && Valid(next)
            && next.slots == map[]
            && next.enabled == Leaked(next) == Leaked(vm.detours) + Stuck(vm.detours, DETOURED, env)
  {
    RemoveExact(vm.detours, DETOURED, env);
    var next := UnhookVm(vm, env).detours;
    assert forall f :: f !in next.slots;
    assert next.slots == map[];
    EnabledAre(next);
  }

  // ---------- ownership over runs ----------

  function EnvOf(event: Event): Env {
    event.env
  }

  /** Disabling a detour always succeeds. */
  ghost predicate CanDisable(events: seq<Event>) {
    forall e, f :: e in events && f in DETOURED ==> f in EnvOf(e).disableable
  }

  lemma {:induction false} LoadOwnership(vm: Vm, image: Image, env: Env)
    requires Valid(vm.detours) && forall f :: f in DETOURED ==> f in env.disableable
    ensures var next := InitializeVm(vm, image, env).0.detours;
            Valid(next) && Leaked(next) == Leaked(vm.detours)
  {
    var (ready, outcome) := InitializeFrom(vm, image);
    assert ready.detours == vm.detours;
    if outcome.Ok? {
      HookExact(ready.(currentVm := image.moduleOffset), env);
      NoneStuck(vm.detours, DETOURED[..Installed(DETOURED, env)], env);
    }
  }

  lemma {:induction false} CallOwnership(vm: Vm, entry: Entry, args: seq<int>, env: Env)
    requires Valid(vm.detours) && forall f :: f in DETOURED ==> f in env.disableable
    ensures var next := CallEntry(vm, entry, args, env).detours;
            Valid(next) && Leaked(next) == Leaked(vm.detours)
  {
    UnhookExact(vm, env);
    NoneStuck(vm.detours, DETOURED, env);
    var next := CallEntry(vm, entry, args, env).detours;
    assert next == vm.detours || next == UnhookVm(vm, env).detours;
  }

  lemma {:induction false} StepOwnership(vm: Vm, event: Event)
    requires Valid(vm.detours) && forall f :: f in DETOURED ==> f in event.env.disableable
    ensures Valid(Step(vm, event).detours) && Leaked(Step(vm, event).detours) == Leaked(vm.detours)
  {
    if !vm.aborted {
      match event
      case Load(image, env) =>
        LoadOwnership(MapModule(vm, image), image, env);
      case EngineCall(entry, args, env) =>
        CallOwnership(vm, entry, args, env);
    }
  }

  /** Over every run in which disabling succeeds, failed loads included, the enabled detours are exactly
      those stored in the slots. */
  lemma {:induction false} RunOwnership(vm: Vm, events: seq<Event>)
    requires Valid(vm.detours) && Leaked(vm.detours) == {} && CanDisable(events)
    ensures var last := Run(vm, events).detours; Valid(last) && last.enabled == Stored(last)
    decreases |events|
  {
    if events == [] {
      EnabledAre(vm.detours);
    } else {
      assert forall f :: f in DETOURED ==> f in EnvOf(events[0]).disableable;
      StepOwnership(vm, events[0]);
      RunOwnership(Step(vm, events[0]), events[1..]);
    }
  }

  // ---------- the originals ----------

  /** Everything a load needs is found, and all detours can be installed. */
  ghost predicate Succeeds(image: Image, env: Env) {
    && image.process.Maps?
    && (forall f: VmFunction :: f in image.found)
    && (forall f :: f in {ClientConnect, G_StartKamikaze, ClientSpawn, G_Damage} ==>
          f in env.creatable && f in env.enableable)
  }

  lemma {:induction false} SucceedsIs(image: Image, env: Env)
    ensures Succeeds(image, env) <==>
            && image.process.Maps? && FirstMissing(image.found, SEARCHED).None?
            && (forall f :: f in DETOURED ==> f in env.creatable && f in env.enableable)
  {
    NothingMissing(image.found, SEARCHED);
    forall f: VmFunction
      ensures f in SEARCHED
      ensures f in DETOURED <==> f in {ClientConnect, G_StartKamikaze, ClientSpawn, G_Damage}
    {
      AllSearched(f);
      DetouredAre(f);
    }
  }

  lemma DetouredAre(f: VmFunction)
    ensures f in DETOURED <==> f in {ClientConnect, G_StartKamikaze, ClientSpawn, G_Damage}
  {
    assert DETOURED[0] == ClientConnect && DETOURED[1] == G_StartKamikaze;
    assert DETOURED[2] == ClientSpawn && DETOURED[3] == G_Damage;
  }

  /** The search reports the first function in the list that was not found. */
  lemma {:induction false} NothingMissing(found: map<VmFunction, Code>, fs: seq<VmFunction>)
    ensures FirstMissing(found, fs).None? <==> forall f :: f in fs ==> f in found
    ensures var missing := FirstMissing(found, fs);
            missing.Some? ==> exists i :: 0 <= i < |fs| && fs[i] == missing.value && missing.value !in found &&
                                          forall j :: 0 <= j < i ==> fs[j] in found
  {
    if fs != [] {
      NothingMissing(found, fs[1..]);
      assert fs == [fs[0]] + fs[1..];
      var missing := FirstMissing(found, fs);
      if fs[0] !in found {
        assert fs[0] == missing.value;
      } else if missing.Some? {
        var i :| 0 <= i < |fs[1..]| && fs[1..][i] == missing.value && forall j :: 0 <= j < i ==> fs[1..][j] in found;
        assert fs[i + 1] == missing.value;
        assert forall j :: 1 <= j < i + 1 ==> fs[j] == fs[1..][j - 1];
      }
    }
  }

  lemma {:induction false} InstallOutcome(d: Detours, fs: seq<VmFunction>, env: Env)
    ensures InstallAll(d, fs, env).1.Ok? <==> forall f :: f in fs ==> f in env.creatable && f in env.enableable
    decreases |fs|
  {
    if fs != [] {
      assert fs == [fs[0]] + fs[1..];
      if Install(d, fs[0], env).1.Ok? {
        InstallOutcome(Install(d, fs[0], env).0, fs[1..], env);
      }
    }
  }

  /** The server survives a load exactly when its memory maps can be read, every function is found and every
      detour can be installed. */
  lemma {:induction false} LoadSucceedsExactly(vm: Vm, image: Image, env: Env)
    requires !vm.aborted
    ensures !Step(vm, Load(image, env)).aborted <==> Succeeds(image, env)
  {
    SucceedsIs(image, env);
    InstallOutcome(vm.detours, DETOURED, env);
  }

  /** The table is ours, and the originals `x` are saved; init and frame only while the module is live. */
  ghost predicate Tracks(vm: Vm, x: Exports, live: bool) {
    && !vm.aborted && vm.table.Some? && ReadTable(vm.words, vm.table.value) == HOOKS
    && vm.shutdownOrig == x.shutdown
    && vm.initOrig == (if live then x.init else Null)
    && vm.frameOrig == (if live then x.frame else Null)
  }

  /** A load that succeeds saves what the table holds and replaces it. */
  lemma LoadTracks(vm: Vm, image: Image, env: Env)
    requires !vm.aborted && Succeeds(image, env)
    ensures var next := Step(vm, Load(image, env));
            && Tracks(next, if image.mapped.Some? then image.mapped.value
                            else ReadTable(vm.words, TableAddress(image)), true)
            && next.calls == vm.calls && next.table == Some(TableAddress(image))
  {
    SucceedsIs(image, env);
    InstallOutcome(vm.detours, DETOURED, env);
  }

  /** A shutdown call releases every detour. */
  lemma {:induction false} ShutdownReleases(vm: Vm, x: Exports, live: bool, args: seq<int>, env: Env)
    requires Tracks(vm, x, live) && Valid(vm.detours) && Leaked(vm.detours) == {}
    requires forall f :: f in DETOURED ==> f in env.disableable
    ensures var next := Step(vm, EngineCall(ShutdownGame, args, env)).detours; next.enabled == {} && next.slots == map[]
  {
    assert ReadTable(vm.words, vm.table.value) == HOOKS;
    UnhookExact(vm, env);
    NoneStuck(vm.detours, DETOURED, env);
  }

  /** The saved original behind an entry. */
  function Original(vm: Vm, entry: Entry): Code {
    match entry
    case InitGame => vm.initOrig
    case RunFrame => vm.frameOrig
    case ShutdownGame => vm.shutdownOrig
  }

  ghost predicate Hooked(vm: Vm) {
    !vm.aborted && vm.table.Some? && ReadTable(vm.words, vm.table.value) == HOOKS
  }

  /** A call through a hooked table reaches the saved original, if any, once; a shutdown call leaves only the
      shutdown function saved. */
  lemma {:induction false} HookedCall(vm: Vm, entry: Entry, args: seq<int>, env: Env)
    requires Hooked(vm)
    ensures var next, code := Step(vm, EngineCall(entry, args, env)), Original(vm, entry);
            && Hooked(next) && next.table == vm.table && next.words == vm.words
            && next.calls == vm.calls + (if code == Null then [] else [Call(code, args)])
            && (forall e :: Original(next, e) ==
                            if entry == ShutdownGame && e != ShutdownGame then Null else Original(vm, e))
  {
    assert ReadTable(vm.words, vm.table.value) == HOOKS;
  }

  function Reached(x: Exports, live: bool, entry: Entry, args: seq<int>): seq<Call> {
    match entry
    case InitGame => if live then [Call(x.init, args)] else []
    case RunFrame => if live then [Call(x.frame, args)] else []
    case ShutdownGame => [Call(x.shutdown, args)]
  }

  /** A call through the table reaches the original once: init and frame while the module is live, shutdown
      always, although unhooking comes first. */
  lemma CallTracks(vm: Vm, x: Exports, live: bool, entry: Entry, args: seq<int>, env: Env)
    requires Tracks(vm, x, live) && x.init != Null && x.frame != Null && x.shutdown != Null
    ensures var next := Step(vm, EngineCall(entry, args, env));
            && Tracks(next, x, live && entry != ShutdownGame)
            && next.calls == vm.calls + Reached(x, live, entry, args)
            && next.table == vm.table && next.words == vm.words
  {}

  /** Every load succeeds and finds a freshly mapped module. */
  ghost predicate FreshLoads(events: seq<Event>) {
    forall e :: e in events && e.Load? ==> Succeeds(e.image, e.env) && e.image.mapped.Some? && e.image.mapped.value.Fresh()
  }

  /** The calls of a run: `x` are the functions of the module loaded last, if any. */
  function Expected(events: seq<Event>, x: Option<Exports>, live: bool): seq<Call>
    decreases |events|
  {
    if events == [] then []
    else
      match events[0]
      case Load(image, _) => Expected(events[1..], image.mapped, true)
      case EngineCall(entry, args, _) =>
        (if x.Some? then Reached(x.value, live, entry, args) else []) +
        Expected(events[1..], x, live && entry != ShutdownGame)
  }

  ghost predicate TracksOption(vm: Vm, x: Option<Exports>, live: bool) {
    match x
    case None => !vm.aborted && vm.table.None?
    case Some(y) => y.Fresh() && Tracks(vm, y, live)
  }

  lemma StepReaches(vm: Vm, event: Event, x: Option<Exports>, live: bool)
    requires TracksOption(vm, x, live)
    requires event.Load? ==>
               Succeeds(event.image, event.env) && event.image.mapped.Some? && event.image.mapped.value.Fresh()
    ensures event.Load? ==>
              TracksOption(Step(vm, event), event.image.mapped, true) && Step(vm, event).calls == vm.calls
    ensures event.EngineCall? ==>
              && TracksOption(Step(vm, event), x, live && event.entry != ShutdownGame)
              && Step(vm, event).calls ==
                 vm.calls + (if x.Some? then Reached(x.value, live, event.entry, event.args) else [])
  {
    match event
    case Load(image, env) =>
      LoadTracks(vm, image, env);
    case EngineCall(entry, args, env) =>
      if x.Some? {
        CallTracks(vm, x.value, live, entry, args, env);
      }
  }

  lemma {:induction false} RunReaches(vm: Vm, events: seq<Event>, x: Option<Exports>, live: bool)
    requires TracksOption(vm, x, live) && FreshLoads(events)
    ensures Run(vm, events).calls == vm.calls + Expected(events, x, live)
    decreases |events|
  {
    if events != [] {
      var event, rest := events[0], events[1..];
      assert event in events;
      assert forall e :: e in rest ==> e in events;
      var next := Step(vm, event);
      StepReaches(vm, event, x, live);
      match event
      case Load(image, _) =>
        RunReaches(next, rest, image.mapped, true);
      case EngineCall(entry, args, _) =>
        RunReaches(next, rest, x, live && entry != ShutdownGame);
        AppendCalls(vm.calls, if x.Some? then Reached(x.value, live, entry, args) else [],
                    Expected(rest, x, live && entry != ShutdownGame));
    }
  }

  lemma AppendCalls(a: seq<Call>, b: seq<Call>, c: seq<Call>)
    ensures a + b + c == a + (b + c)
  {}

  // ---------- recursion ----------

  /** The function that a table holds for an entry. */
  function At(x: Exports, entry: Entry): Code {
    match entry
    case InitGame => x.init
    case RunFrame => x.frame
    case ShutdownGame => x.shutdown
  }

  /** What the table of a module holds when the module is announced. */
  function Announced(vm: Vm, image: Image): Exports {
    if image.mapped.Some? then image.mapped.value else ReadTable(vm.words, TableAddress(image))
  }

  /** The first call after a load that succeeds reaches what the table held for its entry.  So it runs into a
      hook again if and only if that was a hook. */
  lemma {:induction false} LoadReachesExactly(vm: Vm, image: Image, env: Env, entry: Entry, args: seq<int>, callEnv: Env)
    requires !vm.aborted && Succeeds(image, env)
    ensures var code := At(Announced(vm, image), entry);
            var called := Step(Step(vm, Load(image, env)), EngineCall(entry, args, callEnv));
            && called.calls == vm.calls + (if code == Null then [] else [Call(code, args)])
            && ((exists k :: |vm.calls| <= k < |called.calls| && called.calls[k].code.Hook?) <==> code.Hook?)
  {
    LoadTracks(vm, image, env);
    var loaded, code := Step(vm, Load(image, env)), At(Announced(vm, image), entry);
    HookedCall(loaded, entry, args, callEnv);
    assert Original(loaded, entry) == code;
    var called := Step(loaded, EngineCall(entry, args, callEnv));
    if code.Hook? {
      assert called.calls[|vm.calls|] == Call(code, args);
    }
  }

  /** Loading a module again without mapping it afresh saves the hooks as originals: each of them then
      calls itself. */
  lemma {:induction false} StaleLoadRecurses(vm: Vm, x: Exports, live: bool, image: Image, env: Env, entry: Entry, args: seq<int>)
    requires Tracks(vm, x, live) && Succeeds(image, env)
    requires image.mapped.None? && vm.table == Some(TableAddress(image))
    ensures var loaded := Step(vm, Load(image, env));
            Step(loaded, EngineCall(entry, args, env)).calls == vm.calls + [Call(Code.Hook(entry), args)]
  {
    LoadReachesExactly(vm, image, env, entry, args, env);
  }

  /** The three words of a call table that are replaced. */
  predicate InTable(table: int, address: int) {
    exists entry :: address == table + Offset(entry)
  }

  /** Some load among the first `n` events has put a hook at the address. */
  predicate HookAt(events: seq<Event>, n: nat, address: int)
    requires n <= |events|
  {
    exists i :: 0 <= i < n && events[i].Load? && InTable(TableAddress(events[i].image), address)
  }

  /** The table announced by event `i` holds a hook for the entry: it was mapped like that, or it was not
      mapped, and the entry is a word that an earlier load has replaced. */
  predicate AnnouncesHook(events: seq<Event>, i: nat, entry: Entry)
    requires i < |events| && events[i].Load?
  {
    var image := events[i].image;
    if image.mapped.Some? then At(image.mapped.value, entry).Hook?
    else HookAt(events, i, TableAddress(image) + Offset(entry))
  }

  /** The last load among the first `n` events. */
  function LastLoad(events: seq<Event>, n: nat): (i: Option<nat>)
    requires n <= |events|
    ensures i.Some? ==> i.value < n && events[i.value].Load?
    ensures forall k :: (if i.Some? then i.value + 1 else 0) <= k < n ==> !events[k].Load?
  {
    if n == 0 then None else if events[n - 1].Load? then Some(n - 1) else LastLoad(events, n - 1)
  }

  /** Event `k` is a shutdown call. */
  predicate IsShutdown(events: seq<Event>, k: nat)
    requires k < |events|
  {
    events[k].EngineCall? && events[k].entry == ShutdownGame
  }

  /** No shutdown call lies between event `i` and event `n`. */
  predicate NoShutdown(events: seq<Event>, i: nat, n: nat)
    requires n <= |events|
  {
    forall k :: i < k < n ==> !IsShutdown(events, k)
  }

  ghost predicate LoadsSucceed(events: seq<Event>, n: nat)
    requires n <= |events|
  {
    forall k :: 0 <= k < n && events[k].Load? ==> Succeeds(events[k].image, events[k].env)
  }

  /** Event `j` calls an entry for which the last module was announced with a hook, all loads so far have
      succeeded, and the call is a shutdown call or no shutdown call has come before it. */
  ghost predicate RunsIntoHook(events: seq<Event>, j: nat)
    requires j < |events|
  {
    var last := LastLoad(events, j);
    && events[j].EngineCall? && last.Some? && LoadsSucceed(events, j)
    && (events[j].entry == ShutdownGame || NoShutdown(events, last.value, j))
    && AnnouncesHook(events, last.value, events[j].entry)
  }

  ghost predicate OnlyOriginals(calls: seq<Call>) {
    forall c :: c in calls ==> c.code.Game?
  }

  lemma {:induction false} RunSnoc(vm: Vm, events: seq<Event>, event: Event)
    ensures Run(vm, events + [event]) == Step(Run(vm, events), event)
    decreases |events|
  {
    if events == [] {
      assert ([] + [event])[1..] == [];
    } else {
      assert (events + [event])[1..] == events[1..] + [event];
      RunSnoc(Step(vm, events[0]), events[1..], event);
    }
  }

  /** The state after the first `n` events. */
  function After(events: seq<Event>, n: nat): Vm
    requires n <= |events|
  {
    Run(INITIAL, events[..n])
  }

  lemma {:induction false} AfterStep(events: seq<Event>, n: nat)
    requires n < |events|
    ensures After(events, n + 1) == Step(After(events, n), events[n])
  {
    assert events[..n + 1] == events[..n] + [events[n]];
    RunSnoc(INITIAL, events[..n], events[n]);
  }

  /** Memory holds a hook exactly where some load has put one. */
  ghost predicate MemoryIs(vm: Vm, events: seq<Event>, n: nat)
    requires n <= |events|
  {
    forall a :: Read(vm.words, a).Hook? <==> HookAt(events, n, a)
  }

  /** Which saved originals are hooks, told from the events. */
  ghost predicate SavedIs(vm: Vm, events: seq<Event>, n: nat)
    requires n <= |events|
  {
    var last := LastLoad(events, n);
    if last.None? then vm.table.None?
    else
      && Hooked(vm)
      && forall entry :: Original(vm, entry).Hook? <==>
                         AnnouncesHook(events, last.value, entry) &&
                         (entry == ShutdownGame || NoShutdown(events, last.value, n))
  }

  ghost predicate Describes(vm: Vm, events: seq<Event>, n: nat)
    requires n <= |events|
  {
    && (vm.aborted <==> !LoadsSucceed(events, n))
    && (!vm.aborted ==> MemoryIs(vm, events, n) && SavedIs(vm, events, n))
  }

  lemma {:induction false} WriteHooks(words: map<int, Code>, table: int, x: Exports, a: int)
    ensures Read(WriteTable(words, table, HOOKS), a).Hook? <==> Read(words, a).Hook? || InTable(table, a)
    ensures InTable(table, a) || Read(WriteTable(words, table, x), a) == Read(words, a)
  {
    assert InTable(table, table + Offset(InitGame)) && InTable(table, table + Offset(RunFrame));
    assert Offset(ShutdownGame) == 0 && InTable(table, table + Offset(ShutdownGame));
  }

  lemma {:induction false} LoadWords(vm: Vm, image: Image, env: Env)
    requires !vm.aborted && Succeeds(image, env)
    ensures Step(vm, Load(image, env)).words == WriteTable(MapModule(vm, image).words, TableAddress(image), HOOKS)
  {
    SucceedsIs(image, env);
    InstallOutcome(vm.detours, DETOURED, env);
  }

  lemma {:induction false} LoadMemory(vm: Vm, events: seq<Event>, n: nat)
    requires n < |events| && events[n].Load? && Succeeds(events[n].image, events[n].env)
    requires !vm.aborted && MemoryIs(vm, events, n)
    ensures MemoryIs(Step(vm, events[n]), events, n + 1)
  {
    var image := events[n].image;
    var table := TableAddress(image);
    var mapped := MapModule(vm, image).words;
    LoadWords(vm, image, events[n].env);
    forall a
      ensures Read(Step(vm, events[n]).words, a).Hook? <==> HookAt(events, n + 1, a)
    {
      WriteHooks(mapped, table, HOOKS, a);
      if image.mapped.Some? {
        WriteHooks(vm.words, table, image.mapped.value, a);
      }
      HookAtStep(events, n, a);
    }
  }

  lemma {:induction false} HookAtStep(events: seq<Event>, n: nat, a: int)
    requires n < |events|
    ensures HookAt(events, n + 1, a) <==>
            HookAt(events, n, a) || (events[n].Load? && InTable(TableAddress(events[n].image), a))
  {}

  lemma {:induction false} LoadSaves(vm: Vm, events: seq<Event>, n: nat)
    requires n < |events| && events[n].Load? && Succeeds(events[n].image, events[n].env)
    requires !vm.aborted && MemoryIs(vm, events, n)
    ensures SavedIs(Step(vm, events[n]), events, n + 1)
  {
    var image, next := events[n].image, Step(vm, events[n]);
    assert events[n] == Load(image, events[n].env);
    forall entry
      ensures Hooked(next) && (Original(next, entry).Hook? <==> AnnouncesHook(events, n, entry))
    {
      LoadOriginal(vm, image, events[n].env, entry);
      AtRead(vm.words, TableAddress(image), entry);
    }
    assert Hooked(next) by { LoadOriginal(vm, image, events[n].env, InitGame); }
    assert LastLoad(events, n + 1) == Some(n);
  }

  lemma {:induction false} LoadOriginal(vm: Vm, image: Image, env: Env, entry: Entry)
    requires !vm.aborted && Succeeds(image, env)
    ensures var next := Step(vm, Load(image, env)); Hooked(next) && Original(next, entry) == At(Announced(vm, image), entry)
  {
    LoadTracks(vm, image, env);
  }

  lemma AtRead(words: map<int, Code>, table: int, entry: Entry)
    ensures At(ReadTable(words, table), entry) == Read(words, table + Offset(entry))
  {}

  lemma {:induction false} CallSaves(vm: Vm, events: seq<Event>, n: nat)
    requires n < |events| && events[n].EngineCall? && !vm.aborted && SavedIs(vm, events, n)
    ensures SavedIs(Step(vm, events[n]), events, n + 1)
  {
    var last, next := LastLoad(events, n), Step(vm, events[n]);
    assert LastLoad(events, n + 1) == last;
    if last.Some? {
      HookedCall(vm, events[n].entry, events[n].args, events[n].env);
      assert NoShutdown(events, last.value, n + 1) <==> NoShutdown(events, last.value, n) && !IsShutdown(events, n);
    }
  }

  lemma {:induction false} CallMemory(vm: Vm, events: seq<Event>, n: nat)
    requires n < |events| && events[n].EngineCall? && !vm.aborted && SavedIs(vm, events, n) && MemoryIs(vm, events, n)
    ensures !Step(vm, events[n]).aborted && MemoryIs(Step(vm, events[n]), events, n + 1)
  {
    if LastLoad(events, n).Some? {
      HookedCall(vm, events[n].entry, events[n].args, events[n].env);
    }
    assert Step(vm, events[n]).words == vm.words;
    forall a
      ensures HookAt(events, n + 1, a) <==> HookAt(events, n, a)
    {
      HookAtStep(events, n, a);
    }
  }

  lemma {:induction false} StepDescribes(vm: Vm, events: seq<Event>, n: nat)
    requires n < |events| && Describes(vm, events, n)
    ensures Describes(Step(vm, events[n]), events, n + 1)
  {
    assert LoadsSucceed(events, n + 1) <==>
           LoadsSucceed(events, n) && (events[n].Load? ==> Succeeds(events[n].image, events[n].env));
    if !vm.aborted {
      if events[n].EngineCall? {
        CallSaves(vm, events, n);
        CallMemory(vm, events, n);
      } else {
        LoadSucceedsExactly(vm, events[n].image, events[n].env);
        if Succeeds(events[n].image, events[n].env) {
          LoadMemory(vm, events, n);
          LoadSaves(vm, events, n);
        }
      }
    }
  }

  lemma {:induction false} RunDescribes(events: seq<Event>, n: nat)
    requires n <= |events|
    ensures Describes(After(events, n), events, n)
    decreases n
  {
    if n == 0 {
      assert events[..0] == [];
    } else {
      RunDescribes(events, n - 1);
      StepDescribes(After(events, n - 1), events, n - 1);
      AfterStep(events, n - 1);
    }
  }

  /** One event adds a call to a hook exactly when it runs into one. */
  lemma {:induction false} StepRecurses(vm: Vm, events: seq<Event>, n: nat)
    requires n < |events| && Describes(vm, events, n)
    ensures OnlyOriginals(Step(vm, events[n]).calls) <==> OnlyOriginals(vm.calls) && !RunsIntoHook(events, n)
  {
    var next := Step(vm, events[n]);
    if !vm.aborted && events[n].EngineCall? && LastLoad(events, n).Some? {
      var code, args := Original(vm, events[n].entry), events[n].args;
      HookedCall(vm, events[n].entry, args, events[n].env);
      if code == Null {
        assert next.calls == vm.calls;
      } else {
        OnlyOriginalsSnoc(vm.calls, Call(code, args));
      }
    } else {
      assert next.calls == vm.calls;
    }
  }

  lemma {:induction false} OnlyOriginalsSnoc(calls: seq<Call>, call: Call)
    ensures OnlyOriginals(calls + [call]) <==> OnlyOriginals(calls) && call.code.Game?
  {
    assert forall c :: c in calls + [call] <==> c in calls || c == call;
  }

  lemma {:induction false} RecursesUpTo(events: seq<Event>, n: nat)
    requires n <= |events|
    ensures OnlyOriginals(After(events, n).calls) <==> forall j :: 0 <= j < n ==> !RunsIntoHook(events, j)
    decreases n
  {
    if n == 0 {
      assert events[..0] == [];
    } else {
      RecursesUpTo(events, n - 1);
      RunDescribes(events, n - 1);
      AfterStep(events, n - 1);
      StepRecurses(After(events, n - 1), events, n - 1);
    }
  }

  /** Over every run at all, failed loads included: our hooks call functions of the game only, never a hook,
      if and only if no event runs into a hook, which the events alone tell. */
  lemma {:induction false} RecursesExactly(events: seq<Event>)
    ensures OnlyOriginals(Run(INITIAL, events).calls) <==>
            forall j :: 0 <= j < |events| ==> !RunsIntoHook(events, j)
  {
    RecursesUpTo(events, |events|);
    assert events[..|events|] == events;
  }

  /** Every load finds a freshly mapped module, whether or not it succeeds. */
  ghost predicate MappedLoads(events: seq<Event>) {
    forall e :: e in events && e.Load? ==> e.image.mapped.Some? && e.image.mapped.value.Fresh()
  }

  /** In particular no hook ever calls a hook while all modules are mapped afresh. */
  lemma {:induction false} NeverRecurses(events: seq<Event>)
    requires MappedLoads(events)
    ensures OnlyOriginals(Run(INITIAL, events).calls)
  {
    RecursesExactly(events);
    forall j | 0 <= j < |events|
      ensures !RunsIntoHook(events, j)
    {
      var last := LastLoad(events, j);
      if last.Some? {
        assert events[last.value] in events;
      }
    }
  }

  // ---------- saved addresses ----------

  /** The search stores what it finds of all ten functions, even when it then fails, and leaves everything else
      that was saved; and it reports the first function of its list that it does not find. */
  lemma {:induction false} SearchStores(vm: Vm, image: Image)
    ensures var (next, outcome) := InitializeFrom(vm, image);
            && (image.process.NoProcess? ==> next == vm && outcome == Err(ProcessNotFound))
            && (image.process.NoMaps? ==> next == vm && outcome == Err(NoMemoryMappingInformationFound))
            && (image.process.Maps? ==> forall f: VmFunction ::
                  && (f in next.found <==> f in image.found || f in vm.found)
                  && (f in image.found ==> next.found[f] == image.found[f])
                  && (f in vm.found && f !in image.found ==> next.found[f] == vm.found[f]))
            && (image.process.Maps? ==> (outcome.Ok? <==> forall f: VmFunction :: f in image.found))
            && (outcome.Err? ==> next == vm.(found := next.found))
            && (image.process.Maps? && outcome.Err? ==>
                  && outcome.error.VmFunctionNotFound?
                  && ReportsFirst([G_AddEvent, CheckPrivileges, ClientConnect, ClientSpawn, G_Damage,
                                   Touch_Item, LaunchItem, Drop_Item, G_StartKamikaze, G_FreeEntity],
                                  image.found, outcome.error.f))
  {
    StoreFoundSaves(vm.found, image.found);
    NothingMissing(image.found, SEARCHED);
    forall f: VmFunction
      ensures f in SEARCHED
    {
      AllSearched(f);
    }
  }

  /** `f` is the first function of the list that was not found. */
  ghost predicate ReportsFirst(fs: seq<VmFunction>, found: map<VmFunction, Code>, f: VmFunction) {
    exists i :: 0 <= i < |fs| && fs[i] == f && f !in found && forall j :: 0 <= j < i ==> fs[j] in found
  }

  /** A load stores what it finds, whether or not it succeeds later. */
  lemma {:induction false} LoadStores(vm: Vm, image: Image, env: Env)
    requires !vm.aborted
    ensures var next := Step(vm, Load(image, env));
            && next.currentVm == (if image.process.Maps? && forall f: VmFunction :: f in image.found
                                  then image.moduleOffset else vm.currentVm)
            && (!image.process.Maps? ==> next.found == vm.found)
            && (image.process.Maps? ==> forall f: VmFunction ::
                  && (f in next.found <==> f in image.found || f in vm.found)
                  && (f in image.found ==> next.found[f] == image.found[f])
                  && (f in vm.found && f !in image.found ==> next.found[f] == vm.found[f]))
  {
    var mapped := MapModule(vm, image);
    SearchStores(mapped, image);
    LoadKeepsFound(mapped, image, env);
  }

  lemma {:induction false} LoadKeepsFound(vm: Vm, image: Image, env: Env)
    ensures InitializeVm(vm, image, env).0.found == InitializeFrom(vm, image).0.found
    ensures InitializeFrom(vm, image).1.Err? ==> InitializeVm(vm, image, env) == InitializeFrom(vm, image)
    ensures InitializeFrom(vm, image).1.Ok? ==> InitializeVm(vm, image, env).0.currentVm == image.moduleOffset
  {}

  lemma {:induction false} LoadSavesAddresses(vm: Vm, image: Image, env: Env)
    requires !vm.aborted && Succeeds(image, env)
    ensures var next := Step(vm, Load(image, env));
            next.found == image.found && next.vmCallTable == TableAddress(image) && next.currentVm == image.moduleOffset
  {
    LoadStores(vm, image, env);
    SameFound(Step(vm, Load(image, env)).found, image.found);
    SucceedsIs(image, env);
  }

  lemma SameFound(a: map<VmFunction, Code>, b: map<VmFunction, Code>)
    requires forall f: VmFunction :: f in a && f in b && a[f] == b[f]
    ensures a == b
  {}

  /** A call through a hooked table leaves the saved addresses alone, unless it is a shutdown call. */
  lemma {:induction false} CallKeepsAddresses(vm: Vm, entry: Entry, args: seq<int>, env: Env)
    requires Hooked(vm)
    ensures var next := Step(vm, EngineCall(entry, args, env));
            && next.currentVm == vm.currentVm
            && next.found == (if entry == ShutdownGame then map[] else vm.found)
            && next.vmCallTable == (if entry == ShutdownGame then 0 else vm.vmCallTable)
            && (entry == ShutdownGame ==> next.initOrig == next.frameOrig == Null)
  {
    assert ReadTable(vm.words, vm.table.value) == HOOKS;
  }

  /** The saved addresses, told from the events. */
  ghost predicate AddressesAre(vm: Vm, events: seq<Event>, n: nat)
    requires n <= |events|
  {
    var last := LastLoad(events, n);
    if last.None? then vm.found == map[] && vm.vmCallTable == 0 && vm.currentVm == 0
    else
      var image := events[last.value].image;
      && vm.currentVm == image.moduleOffset
      && (NoShutdown(events, last.value, n) ==> vm.found == image.found && vm.vmCallTable == TableAddress(image))
      && (!NoShutdown(events, last.value, n) ==>
            vm.found == map[] && vm.vmCallTable == 0 && vm.initOrig == vm.frameOrig == Null)
  }

  lemma {:induction false} CallAddresses(vm: Vm, events: seq<Event>, n: nat)
    requires n < |events| && events[n].EngineCall? && !vm.aborted
    requires SavedIs(vm, events, n) && AddressesAre(vm, events, n)
    ensures AddressesAre(Step(vm, events[n]), events, n + 1)
  {
    var last := LastLoad(events, n);
    assert LastLoad(events, n + 1) == last;
    if last.Some? {
      CallKeepsAddresses(vm, events[n].entry, events[n].args, events[n].env);
      HookedCall(vm, events[n].entry, events[n].args, events[n].env);
      var next := Step(vm, events[n]);
      assert Original(next, InitGame) == next.initOrig && Original(next, RunFrame) == next.frameOrig;
      assert Original(vm, InitGame) == vm.initOrig && Original(vm, RunFrame) == vm.frameOrig;
      assert NoShutdown(events, last.value, n + 1) <==> NoShutdown(events, last.value, n) && !IsShutdown(events, n);
    }
  }

  lemma {:induction false} StepAddresses(vm: Vm, events: seq<Event>, n: nat)
    requires n < |events| && !vm.aborted && SavedIs(vm, events, n) && AddressesAre(vm, events, n)
    requires events[n].Load? ==> Succeeds(events[n].image, events[n].env)
    ensures AddressesAre(Step(vm, events[n]), events, n + 1)
  {
    if events[n].Load? {
      LoadSavesAddresses(vm, events[n].image, events[n].env);
      assert LastLoad(events, n + 1) == Some(n);
    } else {
      CallAddresses(vm, events, n);
    }
  }

  /** Over every run whose loads succeed, all addresses saved are those of the module loaded last, and they are
      cleared from its first shutdown call on. */
  lemma {:induction false} RunSavesAddresses(events: seq<Event>, n: nat)
    requires n <= |events| && LoadsSucceed(events, n)
    ensures AddressesAre(After(events, n), events, n)
    decreases n
  {
    if n == 0 {
      assert events[..0] == [];
    } else {
      RunSavesAddresses(events, n - 1);
      RunDescribes(events, n - 1);
      AfterStep(events, n - 1);
      StepAddresses(After(events, n - 1), events, n - 1);
    }
  }

  /** Nothing happens behind a load that fails, so what it has stored stays. */
  lemma {:induction false} FailedLoadEnds(events: seq<Event>, m: nat, n: nat)
    requires m < n <= |events| && LoadsSucceed(events, m)
    requires events[m].Load? && !Succeeds(events[m].image, events[m].env)
    ensures After(events, n) == After(events, m + 1) && After(events, n).aborted
    decreases n
  {
    AfterStep(events, n - 1);
    if n == m + 1 {
      RunDescribes(events, m);
      FailedLoadAborts(After(events, m), events[m]);
    } else {
      FailedLoadEnds(events, m, n - 1);
    }
  }

  lemma {:induction false} FailedLoadAborts(vm: Vm, event: Event)
    requires !vm.aborted && event.Load? && !Succeeds(event.image, event.env)
    ensures Step(vm, event).aborted
  {
    LoadSucceedsExactly(vm, event.image, event.env);
    assert event == Load(event.image, event.env);
  }

  // ---------- transparency ----------

  /** The calls of a server without hooks: the engine finds the game functions in the table. */
  function BareCalls(events: seq<Event>, x: Option<Exports>): seq<Call>
    decreases |events|
  {
    if events == [] then []
    else
      match events[0]
      case Load(image, _) => BareCalls(events[1..], image.mapped)
      case EngineCall(entry, args, _) =>
        (if x.None? then []
         else match entry
           case InitGame => [Call(x.value.init, args)]
           case RunFrame => [Call(x.value.frame, args)]
           case ShutdownGame => [Call(x.value.shutdown, args)]) +
        BareCalls(events[1..], x)
  }

  /** Between a shutdown and the next load the engine neither initialises the game nor runs a frame. */
  predicate QuietAfterShutdown(events: seq<Event>, loaded: bool, down: bool)
    decreases |events|
  {
    events == [] ||
    match events[0]
    case Load(_, _) => QuietAfterShutdown(events[1..], true, false)
    case EngineCall(entry, _, _) =>
      && (loaded && down ==> entry == ShutdownGame)
      && QuietAfterShutdown(events[1..], loaded, down || entry == ShutdownGame)
  }

  lemma SamePrefix(first: seq<Call>, a: seq<Call>, b: seq<Call>)
    ensures first + a == first + b <==> a == b
  {
    assert (first + a)[|first|..] == a && (first + b)[|first|..] == b;
  }

  lemma {:induction false} ExpectedOrLess(events: seq<Event>, x: Option<Exports>, live: bool)
    requires FreshLoads(events)
    ensures |Expected(events, x, live)| <= |BareCalls(events, x)|
    ensures Expected(events, x, live) == BareCalls(events, x) <==> QuietAfterShutdown(events, x.Some?, !live)
    decreases |events|
  {
    if events != [] {
      var rest := events[1..];
      assert events[0] in events;
      assert forall e :: e in rest ==> e in events;
      match events[0]
      case Load(image, _) =>
        ExpectedOrLess(rest, image.mapped, true);
      case EngineCall(entry, args, _) =>
        var next := live && entry != ShutdownGame;
        ExpectedOrLess(rest, x, next);
        var reached := if x.Some? then Reached(x.value, live, entry, args) else [];
        var bare := if x.Some? then Reached(x.value, true, entry, args) else [];
        assert Expected(events, x, live) == reached + Expected(rest, x, next);
        assert BareCalls(events, x) == bare + BareCalls(rest, x);
        if reached == bare {
          SamePrefix(bare, Expected(rest, x, next), BareCalls(rest, x));
        }
    }
  }

  /** A server with hooks calls the game functions a server without hooks calls, with the same arguments in
      the same order, if and only if the engine is quiet between a shutdown and the next load. */
  lemma {:induction false} HooksAreTransparent(events: seq<Event>)
    requires FreshLoads(events)
    ensures Run(INITIAL, events).calls == BareCalls(events, None) <==> QuietAfterShutdown(events, false, true)
  {
    RunReaches(INITIAL, events, None, false);
    ExpectedOrLess(events, None, false);
  }
}
