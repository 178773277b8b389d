/** The life cycle of the hooks into the game module: loading, calls from the engine, shutting down.
    A function is an abstract address; the detour library keeps a set of enabled detours. */
module VmHooks {
  import opened Machine

  // ---------- the world ----------

  /** The entries of the module's call table that are replaced. */
  datatype Entry = InitGame | RunFrame | ShutdownGame

  function Offset(entry: Entry): nat {
    match entry
    case InitGame => 0x18
    case RunFrame => 0x8
    case ShutdownGame => 0
  }

  /** The address of a function: none, a function of the game module, or one of our replacements. */
  datatype Code = Null | Game(name: nat) | Hook(entry: Entry)

  datatype Exports = Exports(init: Code, frame: Code, shutdown: Code) {
    /** The table of a freshly mapped module holds game functions only. */
    predicate Fresh() {
      init.Game? && frame.Game? && shutdown.Game?
    }
  }

  datatype VmFunction =
    | G_AddEvent | CheckPrivileges | ClientConnect | ClientSpawn | G_Damage
    | Touch_Item | LaunchItem | Drop_Item | G_StartKamikaze | G_FreeEntity

  const SEARCHED: seq<VmFunction> :=
    [G_AddEvent, CheckPrivileges, ClientConnect, ClientSpawn, G_Damage,
     Touch_Item, LaunchItem, Drop_Item, G_StartKamikaze, G_FreeEntity]

  /** The functions that are detoured, in the order in which this happens. */
  const DETOURED: seq<VmFunction> := [ClientConnect, G_StartKamikaze, ClientSpawn, G_Damage]

  /** For which functions the detour library succeeds. */
  datatype Env = Env(creatable: set<VmFunction>, enableable: set<VmFunction>, disableable: set<VmFunction>)

  /** What the operating system says about our own process. */
  datatype ProcessInfo = NoProcess | NoMaps | Maps

  /** A module as the engine announces it: where it is, the displacement found in its code, whether its memory
      maps can be read, the outcome of the pattern searches, and the contents of its call table if it has just
      been mapped. */
  datatype Image = Image(
    moduleOffset: u64, base: i32, process: ProcessInfo, found: map<VmFunction, Code>, mapped: Option<Exports>)

  function TableAddress(image: Image): (table: u64)
    ensures 0 <= image.base + image.moduleOffset + 7 < 0x1_0000_0000_0000_0000 ==>
              table == image.base + image.moduleOffset + 7
    ensures (table - image.base - image.moduleOffset - 7) % 0x1_0000_0000_0000_0000 == 0
  {
    (image.base + image.moduleOffset + 3 + 4) % TWO_TO_THE_64
  }

  datatype Call = Call(code: Code, args: seq<int>)

  datatype Error =
    | ProcessNotFound | NoMemoryMappingInformationFound
    | VmFunctionNotFound(f: VmFunction)
    | DetourCouldNotBeCreated(f: VmFunction) | DetourCouldNotBeEnabled(f: VmFunction)

  datatype Outcome = Ok | Err(error: Error)

  /** The detour library and the four places where detours are stored. */
  datatype Detours = Detours(slots: map<VmFunction, nat>, enabled: set<nat>, created: nat)

  datatype Vm = Vm(
    vmCallTable: u64,
    found: map<VmFunction, Code>,    // saved addresses, absent where zero
    initOrig: Code, frameOrig: Code, shutdownOrig: Code,
    detours: Detours,
    currentVm: u64,
    words: map<int, Code>,           // memory holding call tables
    table: Option<u64>,              // where the engine finds the call table
    calls: seq<Call>,                // calls that reached a function outside our hooks, or a hook again
    aborted: bool)                   // a panic has ended the server

  function Read(words: map<int, Code>, address: int): Code {
    if address in words then words[address] else Null
  }

  function WriteTable(words: map<int, Code>, table: int, x: Exports): (r: map<int, Code>)
    ensures ReadTable(r, table) == x
    ensures forall a :: Read(r, a) == if a == table then x.shutdown
                                      else if a == table + 0x8 then x.frame
                                      else if a == table + 0x18 then x.init
                                      else Read(words, a)
  {
    words[table + Offset(InitGame) := x.init][table + Offset(RunFrame) := x.frame][table := x.shutdown]
  }

  function ReadTable(words: map<int, Code>, table: int): Exports {
    Exports(Read(words, table + Offset(InitGame)), Read(words, table + Offset(RunFrame)), Read(words, table))
  }

  const HOOKS: Exports := Exports(Hook(InitGame), Hook(RunFrame), Hook(ShutdownGame))

  const INITIAL: Vm := Vm(0, map[], Null, Null, Null, Detours(map[], {}, 0), 0, map[], None, [], false)

  // ---------- the steps ----------

  /** What becomes of the enabled detours when the detour stored for `f` is taken out of its slot. */
  function Disabled(enabled: set<nat>, slots: map<VmFunction, nat>, f: VmFunction, env: Env): set<nat> {
    if f in slots && slots[f] in enabled && f in env.disableable then enabled - {slots[f]} else enabled
  }

  /** Create and enable a detour, store it, and disable the one stored before. */
  function Install(d: Detours, f: VmFunction, env: Env): (Detours, Outcome) {
    if f !in env.creatable then (d, Err(DetourCouldNotBeCreated(f)))
    else if f !in env.enableable then (d.(created := d.created + 1), Err(DetourCouldNotBeEnabled(f)))
    else
      (Detours(d.slots[f := d.created], Disabled(d.enabled + {d.created}, d.slots, f, env), d.created + 1), Ok)
  }

  function InstallAll(d: Detours, fs: seq<VmFunction>, env: Env): (Detours, Outcome)
    decreases |fs|
  {
    if fs == [] then (d, Ok)
    else
      var (next, outcome) := Install(d, fs[0], env);
      if outcome.Err? then (next, outcome) else InstallAll(next, fs[1..], env)
  }

  function HookVm(vm: Vm, env: Env): (Vm, Outcome) {
    var (detours, outcome) := InstallAll(vm.detours, DETOURED, env);
    (vm.(words := WriteTable(vm.words, vm.vmCallTable, HOOKS), detours := detours), outcome)
  }

  function Remove(d: Detours, f: VmFunction, env: Env): Detours {
    d.(enabled := Disabled(d.enabled, d.slots, f, env), slots := d.slots - {f})
  }

  function RemoveAll(d: Detours, fs: seq<VmFunction>, env: Env): Detours
    decreases |fs|
  {
    if fs == [] then d else RemoveAll(Remove(d, fs[0], env), fs[1..], env)
  }

  /** Everything saved is cleared, except the shutdown function, which is still to be called. */
  function Cleared(vm: Vm): Vm {
    vm.(vmCallTable := 0, found := map[], initOrig := Null, frameOrig := Null)
  }

  function UnhookVm(vm: Vm, env: Env): Vm {
    Cleared(vm).(detours := RemoveAll(vm.detours, DETOURED, env))
  }

  function FirstMissing(found: map<VmFunction, Code>, fs: seq<VmFunction>): Option<VmFunction> {
    if fs == [] then None
    else if fs[0] !in found then Some(fs[0])
    else FirstMissing(found, fs[1..])
  }

  function StoreFound(saved: map<VmFunction, Code>, found: map<VmFunction, Code>): map<VmFunction, Code> {
    saved + map f | f in found && f in SEARCHED :: found[f]
  }

  lemma AllSearched(f: VmFunction)
    ensures f in SEARCHED
  {
    assert SEARCHED[0] == G_AddEvent && SEARCHED[1] == CheckPrivileges && SEARCHED[2] == ClientConnect;
    assert SEARCHED[3] == ClientSpawn && SEARCHED[4] == G_Damage && SEARCHED[5] == Touch_Item;
    assert SEARCHED[6] == LaunchItem && SEARCHED[7] == Drop_Item && SEARCHED[8] == G_StartKamikaze;
    assert SEARCHED[9] == G_FreeEntity;
  }

  /** Of all ten functions, what was found is saved, and what was saved before and not found now stays. */
  predicate Saves(before: map<VmFunction, Code>, found: map<VmFunction, Code>, after: map<VmFunction, Code>) {
    forall f: VmFunction ::
      && (f in after <==> f in found || f in before)
      && (f in found ==> after[f] == found[f])
      && (f in before && f !in found ==> after[f] == before[f])
  }

  lemma {:induction false} StoreFoundSaves(saved: map<VmFunction, Code>, found: map<VmFunction, Code>)
    ensures Saves(saved, found, StoreFound(saved, found))
  {
    var after := StoreFound(saved, found);
    forall f: VmFunction
      ensures f in after <==> f in found || f in saved
      ensures f in found ==> after[f] == found[f]
      ensures f in saved && f !in found ==> after[f] == saved[f]
    {
      AllSearched(f);
    }
  }

  function InitializeFrom(vm: Vm, image: Image): (Vm, Outcome) {
    if image.process.NoProcess? then (vm, Err(ProcessNotFound))
    else if image.process.NoMaps? then (vm, Err(NoMemoryMappingInformationFound))
    else
      var stored := vm.(found := StoreFound(vm.found, image.found));
      match FirstMissing(image.found, SEARCHED)
      case Some(f) => (stored, Err(VmFunctionNotFound(f)))
      case None =>
        var table := TableAddress(image);
        var x := ReadTable(vm.words, table);
        (stored.(vmCallTable := table, initOrig := x.init, frameOrig := x.frame, shutdownOrig := x.shutdown), Ok)
  }

  function InitializeVm(vm: Vm, image: Image, env: Env): (Vm, Outcome) {
    var (next, outcome) := InitializeFrom(vm, image);
    if outcome.Err? then (next, outcome) else HookVm(next.(currentVm := image.moduleOffset), env)
  }

  function Reach(vm: Vm, code: Code, args: seq<int>): Vm {
    if code == Null then vm else vm.(calls := vm.calls + [Call(code, args)])
  }

  /** The bodies of our replacement functions. */
  function RunHook(vm: Vm, entry: Entry, args: seq<int>, env: Env): Vm {
    match entry
    case InitGame => Reach(vm, vm.initOrig, args)
    case RunFrame => Reach(vm, vm.frameOrig, args)
    case ShutdownGame => Reach(UnhookVm(vm, env), vm.shutdownOrig, args)
  }

  datatype Event =
    | Load(image: Image, env: Env)
    | EngineCall(entry: Entry, args: seq<int>, env: Env)

  /** The engine maps a module, which then holds its own functions, or goes on with the old mapping. */
  function MapModule(vm: Vm, image: Image): Vm {
    var table := TableAddress(image);
    vm.(words := if image.mapped.Some? then WriteTable(vm.words, table, image.mapped.value) else vm.words,
        table := Some(table))
  }

  /** The engine calls an entry of the module's table. */
  function CallEntry(vm: Vm, entry: Entry, args: seq<int>, env: Env): Vm {
    if vm.table.None? then vm else
      match Read(vm.words, vm.table.value + Offset(entry))
      case Hook(hooked) => RunHook(vm, hooked, args, env)
      case code => Reach(vm, code, args)
  }

  /** The engine maps a module and announces it, or calls into it.  A failed initialisation panics and
      ends the server. */
  function Step(vm: Vm, event: Event): Vm {
    if vm.aborted then vm else
      match event
      case Load(image, env) =>
        var (next, outcome) := InitializeVm(MapModule(vm, image), image, env);
        next.(aborted := outcome.Err?)
      case EngineCall(entry, args, env) => CallEntry(vm, entry, args, env)
  }

  function Run(vm: Vm, events: seq<Event>): Vm
    decreases |events|
  {
    if events == [] then vm else Run(Step(vm, events[0]), events[1..])
  }

  // ---------- the code ----------

  /** What a hook does, in order: the original it reaches, and what surrounds it. */
  datatype Effect = Called(call: Call) | FrameEvent | TagSet | CvarsRead | NewGameEvent | Unhooked

  function ReachedBy(code: Code, args: seq<int>): seq<Effect> {
    if code == Null then [] else [Called(Call(code, args))]
  }

  class QuakeLiveEngine {
    var vmCallTable: u64
    var found: map<VmFunction, Code>
    var initOrig: Code
    var frameOrig: Code
    var shutdownOrig: Code
    var slots: map<VmFunction, nat>  // the four detour fields, absent where empty
    var currentVm: u64
    var words: map<int, Code>
    var table: Option<u64>
    var enabled: set<nat>
    var created: nat
    var calls: seq<Call>
    var aborted: bool
    var effects: seq<Effect>

    function StoredDetours(): Detours
      reads `slots, `enabled, `created
    {
      Detours(slots, enabled, created)
    }

    function State(): Vm
      reads this
    {
      Vm(vmCallTable, found, initOrig, frameOrig, shutdownOrig, StoredDetours(), currentVm, words, table, calls, aborted)
    }

    constructor ()
      ensures State() == INITIAL && effects == []
      ensures vmCallTable == 0 && found == map[] && initOrig == frameOrig == shutdownOrig == Null && currentVm == 0
      ensures slots == map[] && enabled == {} && words == map[] && table.None? && calls == [] && !aborted
    {
      vmCallTable, currentVm, created := 0, 0, 0;
      found, slots, words := map[], map[], map[];
      initOrig, frameOrig, shutdownOrig := Null, Null, Null;
      table, enabled, calls, aborted, effects := None, {}, [], false, [];
    }

    method TryInitializeFrom(image: Image) returns (outcome: Outcome)
      modifies `found, `vmCallTable, `initOrig, `shutdownOrig, `frameOrig
      ensures (State(), outcome) == InitializeFrom(old(State()), image)
    {
      if image.process.NoProcess? {
        return Err(ProcessNotFound);
      }
      if image.process.NoMaps? {
        return Err(NoMemoryMappingInformationFound);
      }
      var missing := SearchFunctions(image);
      if missing.Some? {
        return Err(VmFunctionNotFound(missing.value));
      }
      SaveTable(TableAddress(image));
      return Ok;
    }

    /** Store the address of every function that is found; report the first that is not. */
    method SearchFunctions(image: Image) returns (missing: Option<VmFunction>)
      modifies `found
      ensures found == StoreFound(old(found), image.found) && Saves(old(found), image.found, found)
      ensures missing == FirstMissing(image.found, SEARCHED)
    {
      StoreFoundSaves(found, image.found);
      found := StoreFound(found, image.found);
      missing := FirstMissing(image.found, SEARCHED);
    }

    /** Save what the call table holds. */
    method SaveTable(table: u64)
      modifies `vmCallTable, `initOrig, `shutdownOrig, `frameOrig
      ensures vmCallTable == table && Exports(initOrig, frameOrig, shutdownOrig) == ReadTable(words, table)
      ensures initOrig == Read(words, table + 0x18) && frameOrig == Read(words, table + 0x8)
      ensures shutdownOrig == Read(words, table)
    {
      vmCallTable := table;
      initOrig := Read(words, vmCallTable + Offset(InitGame));
      shutdownOrig := Read(words, vmCallTable);
      frameOrig := Read(words, vmCallTable + Offset(RunFrame));
    }

    /** Create and enable a detour, store it, and disable the one stored before. */
    method InstallDetour(f: VmFunction, env: Env) returns (outcome: Outcome)
      modifies `slots, `enabled, `created
      ensures (StoredDetours(), outcome) == Install(old(StoredDetours()), f, env)
    {
      if f !in env.creatable {
        return Err(DetourCouldNotBeCreated(f));
      }
      var detour := created;
      created := created + 1;
      if f !in env.enableable {
        return Err(DetourCouldNotBeEnabled(f));
      }
      enabled := enabled + {detour};
      var before := slots;
      slots := slots[f := detour];
      if f in before && before[f] in enabled && f in env.disableable {
        enabled := enabled - {before[f]};
      }
      return Ok;
    }

    method Hook(env: Env) returns (outcome: Outcome)
      modifies `words, `slots, `enabled, `created
      ensures (State(), outcome) == HookVm(old(State()), env)
    {
      ReplaceTable();
      outcome := InstallDetours(env);
    }

    /** The first part of hooking: the entries of the call table. */
    method ReplaceTable()
      modifies `words
      ensures words == WriteTable(old(words), vmCallTable, HOOKS)
      ensures forall a :: Read(words, a) == if a == vmCallTable + 0x18 then Code.Hook(InitGame)
                                            else if a == vmCallTable + 0x8 then Code.Hook(RunFrame)
                                            else if a == vmCallTable then Code.Hook(ShutdownGame)
                                            else old(Read(words, a))
    {
      words := words[vmCallTable + 0x18 := Code.Hook(InitGame)];
      words := words[vmCallTable + 0x8 := Code.Hook(RunFrame)];
      words := words[vmCallTable := Code.Hook(ShutdownGame)];
    }

    /** The second part of hooking: one detour after the other, up to the first failure. */
    method InstallDetours(env: Env) returns (outcome: Outcome)
      modifies `slots, `enabled, `created
      ensures (StoredDetours(), outcome) == InstallAll(old(StoredDetours()), DETOURED, env)
    {
      UnfoldDetours(StoredDetours(), env);
      outcome := InstallDetour(ClientConnect, env);
      if outcome.Err? {
        return;
      }
      outcome := InstallDetour(G_StartKamikaze, env);
      if outcome.Err? {
        return;
      }
      outcome := InstallDetour(ClientSpawn, env);
      if outcome.Err? {
        return;
      }
      outcome := InstallDetour(G_Damage, env);
    }

    method RemoveDetour(f: VmFunction, env: Env)
      modifies `slots, `enabled
      ensures StoredDetours() == Remove(old(StoredDetours()), f, env)
    {
      var before := slots;
      slots := slots - {f};
      if f in before && before[f] in enabled && f in env.disableable {
        enabled := enabled - {before[f]};
      }
    }

    method Unhook(env: Env)
      modifies `vmCallTable, `found, `initOrig, `frameOrig, `slots, `enabled, `effects
      ensures State() == UnhookVm(old(State()), env)
      ensures effects == old(effects) + [Unhooked]
    {
      ClearSaved();
      RemoveDetours(env);
      effects := effects + [Unhooked];
    }

    method ClearSaved()
      modifies `vmCallTable, `found, `initOrig, `frameOrig
      ensures State() == Cleared(old(State()))
      ensures vmCallTable == 0 && found == map[] && initOrig == frameOrig == Null
    {
      vmCallTable, found, initOrig, frameOrig := 0, map[], Null, Null;
    }

    method RemoveDetours(env: Env)
      modifies `slots, `enabled
      ensures StoredDetours() == RemoveAll(old(StoredDetours()), DETOURED, env)
    {
      UnfoldRemoval(StoredDetours(), env);
      RemoveDetour(ClientConnect, env);
      RemoveDetour(G_StartKamikaze, env);
      RemoveDetour(ClientSpawn, env);
      RemoveDetour(G_Damage, env);
    }

    method Initialize(image: Image, env: Env) returns (outcome: Outcome)
      modifies `found, `vmCallTable, `initOrig, `shutdownOrig, `frameOrig, `currentVm, `words, `slots, `enabled, `created
      ensures (State(), outcome) == InitializeVm(old(State()), image, env)
    {
      outcome := TryInitializeFrom(image);
      if outcome.Err? {
        return;
      }
      currentVm := image.moduleOffset;
      outcome := Hook(env);
    }

    /** Call a saved original; zero means there is none. */
    method CallOriginal(code: Code, args: seq<int>)
      modifies `calls, `effects
      ensures State() == Reach(old(State()), code, args)
      ensures effects == old(effects) + ReachedBy(code, args)
    {
      if code != Null {
        calls := calls + [Call(code, args)];
        effects := effects + [Called(Call(code, args))];
      }
    }

    /** The tag, the console variables and, on a restart, the new-game event follow the original. */
    method InitGameHook(levelTime: int, randomSeed: int, restart: int)
      modifies `calls, `effects
      ensures forall env :: State() == RunHook(old(State()), InitGame, [levelTime, randomSeed, restart], env)
      ensures effects == old(effects) + ReachedBy(old(initOrig), [levelTime, randomSeed, restart])
                         + [TagSet, CvarsRead] + (if restart != 0 then [NewGameEvent] else [])
    {
      CallOriginal(initOrig, [levelTime, randomSeed, restart]);
      effects := effects + [TagSet];
      effects := effects + [CvarsRead];
      if restart != 0 {
        effects := effects + [NewGameEvent];
      }
    }

    /** The Python frame event comes before the original. */
    method RunFrameHook(time: int)
      modifies `calls, `effects
      ensures forall env :: State() == RunHook(old(State()), RunFrame, [time], env)
      ensures effects == old(effects) + [FrameEvent] + ReachedBy(old(frameOrig), [time])
    {
      effects := effects + [FrameEvent];
      CallOriginal(frameOrig, [time]);
    }

    /** Everything is unhooked before the original is called. */
    method ShutdownGameHook(restart: int, env: Env)
      modifies `vmCallTable, `found, `initOrig, `frameOrig, `slots, `enabled, `calls, `effects
      ensures State() == RunHook(old(State()), ShutdownGame, [restart], env)
      ensures effects == old(effects) + [Unhooked] + ReachedBy(old(shutdownOrig), [restart])
    {
      Unhook(env);
      CallOriginal(shutdownOrig, [restart]);
    }
  }

  lemma UnfoldDetours(d: Detours, env: Env)
    ensures InstallAll(d, DETOURED, env) ==
            var (a, oa) := Install(d, ClientConnect, env);
            if oa.Err? then (a, oa) else
            var (b, ob) := Install(a, G_StartKamikaze, env);
            if ob.Err? then (b, ob) else
            var (c, oc) := Install(b, ClientSpawn, env);
            if oc.Err? then (c, oc) else Install(c, G_Damage, env)
  {}

  lemma UnfoldRemoval(d: Detours, env: Env)
    ensures RemoveAll(d, DETOURED, env) ==
            Remove(Remove(Remove(Remove(d, ClientConnect, env), G_StartKamikaze, env), ClientSpawn, env), G_Damage, env)
  {}
}
