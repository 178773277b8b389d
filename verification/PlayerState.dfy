/** The packed state of a player: the weapon mask, the expiry times of power-ups and the kamikaze flag. */
module PlayerState {
  import opened Machine
  import opened Bits

  const STAT_HOLDABLE_ITEM: nat := 1
  const STAT_WEAPONS: nat := 3
  const STAT_ARMOR: nat := 4
  const STAT_FLIGHT_THRUST: nat := 9
  const STAT_MAX_FLIGHT_FUEL: nat := 10
  const STAT_CUR_FLIGHT_FUEL: nat := 11
  const STAT_FLIGHT_REFUEL: nat := 12

  const KAMIKAZE_BIT: nat := 9  // EF_KAMIKAZE == 512
  const MODELINDEX_KAMIKAZE: i32 := 35

  /** The i32 result of an operation that wraps around. */
  function Wrap32(x: int): (r: i32)
    ensures -0x8000_0000 <= x < 0x8000_0000 ==> r == x
    ensures (r - x) % 0x1_0000_0000 == 0
  {
    (x + 0x8000_0000) % 0x1_0000_0000 - 0x8000_0000
  }

  // ---------- weapons ----------

  /** One entry per weapon, 1 if its bit is set. */
  function WeaponList(mask: i32): (weapons: seq<i32>)
    ensures |weapons| == 15
  {
    seq(15, i requires 0 <= i < 15 => if TestBit(mask, i + 1) then 1 else 0)
  }

  /** The sum of `1 << (i + 1)` over the positive entries among the first `n`. */
  function WeaponSum(weapons: seq<i32>, n: nat): int
    requires n <= |weapons|
  {
    if n == 0 then 0
    else WeaponSum(weapons, n - 1) + (if weapons[n - 1] > 0 then Pow2(n) else 0)
  }

  /** Bit k of the sum is set exactly when entry k - 1 is positive; each partial sum stays below the next power. */
  lemma {:induction false} WeaponSumBits(weapons: seq<i32>, n: nat)
    requires n <= |weapons|
    ensures 0 <= WeaponSum(weapons, n) < Pow2(n + 1)
    ensures forall k :: 0 <= k ==> (TestBit(WeaponSum(weapons, n), k) <==> 1 <= k <= n && weapons[k - 1] > 0)
  {
    if n == 0 {
      forall k | 0 <= k
        ensures !TestBit(0, k)
      {
        HighBitClear(0, 0, k);
      }
    } else {
      WeaponSumBits(weapons, n - 1);
      var low := WeaponSum(weapons, n - 1);
      AddPow2(low, n);
      forall k | 0 <= k
        ensures TestBit(WeaponSum(weapons, n), k) <==> 1 <= k <= n && weapons[k - 1] > 0
      {
        TestAfterSet(low, n, k);
      }
    }
  }

  /** The sum of fifteen distinct powers of two is an i32. */
  lemma WeaponSumFits(weapons: seq<i32>)
    requires |weapons| == 15
    ensures 0 <= WeaponSum(weapons, 15) < 0x1_0000
  {
    WeaponSumBits(weapons, 15);
    assert Pow2(4) == 16 && Pow2(8) == 256 && Pow2(12) == 4096 && Pow2(16) == 65536;
  }

  function WeaponMask(weapons: seq<i32>): (mask: i32)
    requires |weapons| == 15
  {
    WeaponSumFits(weapons);
    WeaponSum(weapons, 15)
  }

  /** Reading the weapons back gives 1 exactly where the input was positive. */
  lemma WeaponsRoundTrip(weapons: seq<i32>, i: nat)
    requires |weapons| == 15 && i < 15
    ensures WeaponList(WeaponMask(weapons))[i] == if weapons[i] > 0 then 1 else 0
  {
    WeaponSumBits(weapons, 15);
  }

  /** Writing back what was read keeps bits 1 to 15 of the mask and clears all others. */
  lemma MaskRoundTrip(mask: i32, k: nat)
    ensures TestBit(WeaponMask(WeaponList(mask)), k) <==> 1 <= k <= 15 && TestBit(mask, k)
  {
    WeaponSumBits(WeaponList(mask), 15);
  }

  // ---------- power-ups ----------

  /** The slot of each of the six settable power-ups; flight (9) is not among them. */
  function PowerupSlot(i: nat): (slot: nat)
    requires i < 6
    ensures slot < 16 && slot != 9
  {
    if i < 5 then 4 + i else 10
  }

  /** The remainder that keeps the sign of the dividend. */
  function TruncRem(x: int, d: int): int
    requires d > 0
  {
    if x >= 0 then x % d else -((-x) % d)
  }

  /** The expiry time written for a duration. */
  function Expiry(levelTime: i32, duration: i32): i32 {
    if duration == 0 then 0 else Wrap32(levelTime - TruncRem(levelTime, 1000) + duration)
  }

  /** The remaining time read for an expiry time. */
  function Remaining(levelTime: i32, expiry: i32): i32 {
    if expiry == 0 then 0 else Wrap32(expiry - levelTime)
  }

  /** Set and get at the same time: 0 stays 0, and a positive duration loses the part of a second that has
      already passed, even where the expiry time wraps around. */
  lemma PowerupRoundTrip(levelTime: i32, duration: i32)
    requires levelTime >= 0 && duration >= 0
    ensures Remaining(levelTime, Expiry(levelTime, duration)) == if duration == 0 then 0 else duration - levelTime % 1000
    ensures Remaining(levelTime, Expiry(levelTime, duration)) == duration <==> duration == 0 || levelTime % 1000 == 0
  {}

  lemma WrapAdd(a: int, b: int)
    ensures Wrap32(Wrap32(a) + b) == Wrap32(a + b)
  {}

  /** For every level time and duration, negative ones and wrapped sums included: set and get at the same
      time returns the duration exactly when it is 0, or the level time is a whole second and the expiry
      time does not happen to be 0, which means "not running". */
  lemma {:induction false} PowerupExact(levelTime: i32, duration: i32)
    ensures Remaining(levelTime, Expiry(levelTime, duration)) == duration
       <==> duration == 0 || (levelTime % 1000 == 0 && Wrap32(levelTime + duration) != 0)
  {
    var started := TruncRem(levelTime, 1000);
    assert -1000 < started < 1000 && (started == 0 <==> levelTime % 1000 == 0);
    if duration != 0 && Expiry(levelTime, duration) != 0 {
      WrapAdd(levelTime - started + duration, 0 - (levelTime as int));
      assert Remaining(levelTime, Expiry(levelTime, duration)) == Wrap32(duration - started);
    }
  }

  /** Half a second into a second, thirty seconds read as twenty-nine and a half; and a duration that ends at
      time 0 reads as none. */
  lemma {:induction false} DurationsThatChange()
    ensures Remaining(1500, Expiry(1500, 30000)) == 29500
    ensures Remaining(1000, Expiry(1000, -1000)) == 0
  {}

  /** A negative level time is cut towards zero, and an expiry time beyond the machine type wraps around. */
  lemma {:induction false} ExpiryExamples()
    ensures Expiry(1500, 30000) == 31000 && Expiry(-1500, 30000) == 29000
    ensures Expiry(0x7FFF_FFFF, 2000) == -0x8000_0000 + 1352
  {}

  /** As time advances a running power-up loses exactly the time that passes. */
  lemma RemainingFalls(now: i32, later: i32, expiry: i32)
    requires 0 <= now <= later && expiry > 0
    ensures Remaining(later, expiry) == Remaining(now, expiry) - (later - now)
  {}

  // ---------- the game client ----------

  datatype Player = Player(stats: seq<i32>, powerups: seq<i32>, ammo: seq<i32>, eFlags: i32) {
    predicate Valid() {
      |stats| == 16 && |powerups| == 16 && |ammo| == 16
    }
  }

  datatype Op =
    | SetArmor(armor: i32)
    | SetWeapons(weapons: seq<i32>)
    | SetAmmos(ammos: seq<i32>)
    | SetPowerups(levelTime: Option<i32>, durations: seq<i32>)
    | SetHoldable(holdable: i32)
    | RemoveKamikazeFlag
    | SetFlight(params: seq<i32>)
  {
    /** The array lengths the source fixes by its types. */
    predicate Valid() {
      match this
      case SetWeapons(weapons) => |weapons| == 15
      case SetAmmos(ammos) => |ammos| == 15
      case SetPowerups(_, durations) => |durations| == 6
      case SetFlight(params) => |params| == 4
      case _ => true
    }
  }

  function TimeOrDefault(levelTime: Option<i32>): i32 {
    match levelTime
    case None => 0
    case Some(t) => t
  }

  function WithFlag(eFlags: i32, on: bool): (r: i32) {
    KamikazeRange(eFlags);
    if on then SetBit(eFlags, KAMIKAZE_BIT) else ClearBit(eFlags, KAMIKAZE_BIT)
  }

  lemma {:induction false} KamikazeRange(eFlags: i32)
    ensures -0x8000_0000 <= SetBit(eFlags, KAMIKAZE_BIT) < 0x8000_0000
    ensures -0x8000_0000 <= ClearBit(eFlags, KAMIKAZE_BIT) < 0x8000_0000
  {
    assert Pow2(4) == 16 && Pow2(8) == 256 && Pow2(12) == 4096 && Pow2(16) == 65536;
    assert Pow2(20) == 0x10_0000 && Pow2(24) == 0x100_0000 && Pow2(28) == 0x1000_0000 && Pow2(31) == 0x8000_0000;
    BitRange(eFlags, KAMIKAZE_BIT, 31);
  }

  function AfterPowerups(powerups: seq<i32>, t: i32, durations: seq<i32>, n: nat): (r: seq<i32>)
    requires |powerups| == 16 && |durations| == 6 && n <= 6
    ensures |r| == 16
  {
    if n == 0 then powerups
    else AfterPowerups(powerups, t, durations, n - 1)[PowerupSlot(n - 1) := Expiry(t, durations[n - 1])]
  }

  function PowerupTimes(powerups: seq<i32>, t: i32): (times: seq<i32>)
    requires |powerups| == 16
    ensures |times| == 6
  {
    seq(6, i requires 0 <= i < 6 => Remaining(t, powerups[PowerupSlot(i)]))
  }

  /** What one operation does to the player state. */
  function Step(p: Player, op: Op): (q: Player)
    requires p.Valid() && op.Valid()
    ensures q.Valid()
  {
    match op
    case SetArmor(armor) => p.(stats := p.stats[STAT_ARMOR := armor])
    case SetWeapons(weapons) => p.(stats := p.stats[STAT_WEAPONS := WeaponMask(weapons)])
    case SetAmmos(ammos) => p.(ammo := [p.ammo[0]] + ammos)
    case SetPowerups(levelTime, durations) =>
      p.(powerups := AfterPowerups(p.powerups, TimeOrDefault(levelTime), durations, 6))
    case SetHoldable(holdable) =>
      p.(stats := p.stats[STAT_HOLDABLE_ITEM := holdable],
         eFlags := WithFlag(p.eFlags, holdable == MODELINDEX_KAMIKAZE))
    case RemoveKamikazeFlag => p.(eFlags := WithFlag(p.eFlags, false))
    case SetFlight(params) =>
      p.(stats := p.stats[STAT_CUR_FLIGHT_FUEL := params[0]][STAT_MAX_FLIGHT_FUEL := params[1]]
                         [STAT_FLIGHT_THRUST := params[2]][STAT_FLIGHT_REFUEL := params[3]])
  }

  class GameClient {
    const stats: array<i32>
    const powerups: array<i32>
    const ammo: array<i32>
    var eFlags: i32

    ghost predicate Valid()
      reads this
    {
      && stats.Length == 16 && powerups.Length == 16 && ammo.Length == 16
      && stats != powerups && stats != ammo && powerups != ammo
    }

    ghost function State(): (p: Player)
      requires Valid()
      reads this, stats, powerups, ammo
      ensures p.Valid()
    {
      Player(stats[..], powerups[..], ammo[..], eFlags)
    }

    constructor ()
      ensures Valid() && fresh(stats) && fresh(powerups) && fresh(ammo)
      ensures State() == Player(seq(16, _ => 0), seq(16, _ => 0), seq(16, _ => 0), 0)
    {
      stats := new i32[16](_ => 0);
      powerups := new i32[16](_ => 0);
      ammo := new i32[16](_ => 0);
      eFlags := 0;
    }

    method GetWeapons() returns (weapons: seq<i32>)
      requires Valid()
      ensures |weapons| == 15
      ensures forall i :: 0 <= i < 15 ==> weapons[i] == if TestBit(stats[3], i + 1) then 1 else 0
      ensures weapons == WeaponList(stats[3])
    {
      var weaponStats := stats[STAT_WEAPONS];
      weapons := seq(15, i requires 0 <= i < 15 => if TestBit(weaponStats, i + 1) then 1 else 0);
    }

    method SetWeapons(weapons: seq<i32>)
      requires Valid() && |weapons| == 15
      modifies stats
      ensures State() == Step(old(State()), Op.SetWeapons(weapons))
      ensures forall k :: 0 <= k ==> (TestBit(stats[3], k) <==> 1 <= k <= 15 && weapons[k - 1] > 0)
    {
      WeaponSumBits(weapons, 15);
      stats[STAT_WEAPONS] := WeaponMask(weapons);
    }

    method SetArmor(armor: i32)
      requires Valid()
      modifies stats
      ensures State() == Step(old(State()), Op.SetArmor(armor)) && stats[4] == armor
    {
      stats[STAT_ARMOR] := armor;
    }

    method GetAmmos() returns (ammos: seq<i32>)
      requires Valid()
      ensures ammos == State().ammo[1..]
    {
      ammos := ammo[1..16];
    }

    method SetAmmos(ammos: seq<i32>)
      requires Valid() && |ammos| == 15
      modifies ammo
      ensures State() == Step(old(State()), Op.SetAmmos(ammos))
    {
      for i := 0 to 15
        invariant forall k :: 0 <= k < 16 ==> ammo[k] == if 1 <= k <= i then ammos[k - 1] else old(ammo[k])
      {
        ammo[i + 1] := ammos[i];
      }
      assert ammo[..] == [old(ammo[0])] + ammos;
    }

    method GetPowerups(levelTime: Option<i32>) returns (times: seq<i32>)
      requires Valid()
      ensures times == PowerupTimes(State().powerups, TimeOrDefault(levelTime))
      ensures forall i :: 0 <= i < 6 ==>
                var expiry, now := powerups[[4, 5, 6, 7, 8, 10][i]], if levelTime.None? then 0 else levelTime.value;
                && (expiry == 0 ==> times[i] == 0)
                && (expiry != 0 && -0x8000_0000 <= expiry - now < 0x8000_0000 ==> times[i] == expiry - now)
    {
      var t := TimeOrDefault(levelTime);
      var slots := powerups[..];
      times := seq(6, i requires 0 <= i < 6 => Remaining(t, slots[PowerupSlot(i)]));
    }

    method SetPowerups(levelTime: Option<i32>, durations: seq<i32>)
      requires Valid() && |durations| == 6
      modifies powerups
      ensures State() == Step(old(State()), Op.SetPowerups(levelTime, durations))
    {
      var t := TimeOrDefault(levelTime);
      for i := 0 to 6
        invariant powerups[..] == AfterPowerups(old(powerups[..]), t, durations, i)
      {
        powerups[PowerupSlot(i)] :=
          if durations[i] == 0 then 0 else Wrap32(t - TruncRem(t, 1000) + durations[i]);
      }
    }

    method RemoveKamikazeFlag()
      requires Valid()
      modifies `eFlags
      ensures State() == Step(old(State()), Op.RemoveKamikazeFlag)
    {
      eFlags := WithFlag(eFlags, false);
    }

    method SetHoldable(holdable: i32)
      requires Valid()
      modifies `eFlags, stats
      ensures State() == Step(old(State()), Op.SetHoldable(holdable)) && stats[1] == holdable
    {
      if holdable == MODELINDEX_KAMIKAZE {
        eFlags := WithFlag(eFlags, true);
      } else {
        RemoveKamikazeFlag();
      }
      stats[STAT_HOLDABLE_ITEM] := holdable;
    }

    method SetFlight(params: seq<i32>)
      requires Valid() && |params| == 4
      modifies stats
      ensures State() == Step(old(State()), Op.SetFlight(params))
      ensures [stats[11], stats[10], stats[9], stats[12]] == params  // fuel, its maximum, thrust, refuel
    {
      stats[STAT_CUR_FLIGHT_FUEL] := params[0];
      stats[STAT_MAX_FLIGHT_FUEL] := params[1];
      stats[STAT_FLIGHT_THRUST] := params[2];
      stats[STAT_FLIGHT_REFUEL] := params[3];
    }
  }

  // ---------- power-ups of a player ----------

  lemma {:induction false} PowerupsSet(powerups: seq<i32>, t: i32, durations: seq<i32>, n: nat)
    requires |powerups| == 16 && |durations| == 6 && n <= 6
    ensures forall i :: 0 <= i < n ==> AfterPowerups(powerups, t, durations, n)[PowerupSlot(i)] == Expiry(t, durations[i])
    ensures forall s :: 0 <= s < 16 && (forall i :: 0 <= i < n ==> PowerupSlot(i) != s)
                    ==> AfterPowerups(powerups, t, durations, n)[s] == powerups[s]
  {
    if n > 0 {
      PowerupsSet(powerups, t, durations, n - 1);
    }
  }

  /** Setting the power-ups and reading them later gives each duration less the started second and less
      the time that has passed; all slots but the six, flight among them, stay as they were. */
  lemma PowerupsRoundTrip(p: Player, now: i32, later: i32, durations: seq<i32>)
    requires p.Valid() && |durations| == 6 && 0 <= now <= later
    requires forall i :: 0 <= i < 6 ==> 0 <= durations[i] && now + durations[i] < 0x8000_0000
    ensures var q := Step(p, Op.SetPowerups(Some(now), durations));
            && (forall i :: 0 <= i < 6 ==>
                  q.powerups[[4, 5, 6, 7, 8, 10][i]] == if durations[i] == 0 then 0 else now - now % 1000 + durations[i])
            && (forall i :: 0 <= i < 6 ==>
                  PowerupTimes(q.powerups, later)[i] ==
                  if durations[i] == 0 then 0 else durations[i] - now % 1000 - (later - now))
            && (forall s :: 0 <= s < 16 && s !in {4, 5, 6, 7, 8, 10} ==> q.powerups[s] == p.powerups[s])
            && q == p.(powerups := q.powerups)
  {
    PowerupsSet(p.powerups, now, durations, 6);
    var q := Step(p, Op.SetPowerups(Some(now), durations));
    forall i | 0 <= i < 6
      ensures q.powerups[[4, 5, 6, 7, 8, 10][i]] == if durations[i] == 0 then 0 else now - now % 1000 + durations[i]
      ensures PowerupTimes(q.powerups, later)[i] ==
              if durations[i] == 0 then 0 else durations[i] - now % 1000 - (later - now)
    {
      assert PowerupSlot(i) == [4, 5, 6, 7, 8, 10][i];
      PowerupRoundTrip(now, durations[i]);
      if durations[i] > 0 {
        RemainingFalls(now, later, Expiry(now, durations[i]));
      }
    }
    forall s | 0 <= s < 16 && s !in {4, 5, 6, 7, 8, 10}
      ensures q.powerups[s] == p.powerups[s]
    {
      assert forall i :: 0 <= i < 6 ==> PowerupSlot(i) != s;
    }
  }

  // ---------- independence ----------

  /** The operations are of different kinds and do not both touch the kamikaze flag. */
  predicate Independent(a: Op, b: Op) {
    match a
    case SetArmor(_) => !b.SetArmor?
    case SetWeapons(_) => !b.SetWeapons?
    case SetAmmos(_) => !b.SetAmmos?
    case SetPowerups(_, _) => !b.SetPowerups?
    case SetHoldable(_) => !b.SetHoldable? && !b.RemoveKamikazeFlag?
    case RemoveKamikazeFlag => !b.SetHoldable?
    case SetFlight(_) => !b.SetFlight?
  }

  /** Although most of them write into one array, independent operations can be swapped. */
  lemma IndependentCommute(p: Player, a: Op, b: Op)
    requires p.Valid() && a.Valid() && b.Valid() && Independent(a, b)
    ensures Step(Step(p, a), b) == Step(Step(p, b), a)
  {}

  // ---------- runs ----------

  predicate AllValid(ops: seq<Op>) {
    forall i :: 0 <= i < |ops| ==> ops[i].Valid()
  }

  function Run(p: Player, ops: seq<Op>): (q: Player)
    requires p.Valid() && AllValid(ops)
    ensures q.Valid()
    decreases |ops|
  {
    if ops == [] then p else
      assert ops[0].Valid();
      assert forall i :: 0 <= i < |ops| - 1 ==> ops[1..][i] == ops[i + 1];
      Run(Step(p, ops[0]), ops[1..])
  }

  /** The kamikaze flag implies that the kamikaze is the held item. */
  predicate Consistent(p: Player) {
    p.Valid() && (TestBit(p.eFlags, 9) ==> p.stats[1] == 35)
  }

  lemma FlagOnly(eFlags: i32, on: bool, k: nat)
    ensures TestBit(WithFlag(eFlags, on), k) <==> if k == 9 then on else TestBit(eFlags, k)
  {
    TestAfterSet(eFlags, KAMIKAZE_BIT, k);
    TestAfterClear(eFlags, KAMIKAZE_BIT, k);
  }

  /** The flag is the number 512: setting adds it and removing takes it away, if that changes anything. */
  lemma {:induction false} FlagIs512(eFlags: i32, on: bool)
    ensures WithFlag(eFlags, on) ==
            if (eFlags / 512 % 2 == 1) == on then eFlags else if on then eFlags + 512 else eFlags - 512
  {
    assert Pow2(4) == 16 && Pow2(9) == 512;
    TestBitIs(eFlags, 9);
    AddPow2(eFlags, 9);
    SubtractPow2(eFlags, 9);
  }

  lemma StepKeepsConsistent(p: Player, op: Op)
    requires Consistent(p) && op.Valid()
    ensures Consistent(Step(p, op))
  {
    FlagOnly(p.eFlags, op.SetHoldable? && op.holdable == MODELINDEX_KAMIKAZE, KAMIKAZE_BIT);
  }

  /** Over every run the flag implies the held item. */
  lemma {:induction false} RunKeepsConsistent(p: Player, ops: seq<Op>)
    requires Consistent(p) && AllValid(ops)
    ensures Consistent(Run(p, ops))
    decreases |ops|
  {
    if ops != [] {
      assert ops[0].Valid();
      StepKeepsConsistent(p, ops[0]);
      assert forall i :: 0 <= i < |ops| - 1 ==> ops[1..][i] == ops[i + 1];
      RunKeepsConsistent(Step(p, ops[0]), ops[1..]);
    }
  }

  /** What the last operation that touches the flag makes of it. */
  function FlagAfter(initial: bool, ops: seq<Op>): bool {
    if ops == [] then initial
    else
      match ops[|ops| - 1]
      case SetHoldable(holdable) => holdable == 35
      case RemoveKamikazeFlag => false
      case _ => FlagAfter(initial, ops[..|ops| - 1])
  }

  lemma {:induction false} RunSnoc(p: Player, ops: seq<Op>, op: Op)
    requires p.Valid() && AllValid(ops) && op.Valid()
    ensures AllValid(ops + [op]) && Run(p, ops + [op]) == Step(Run(p, ops), op)
    decreases |ops|
  {
    if ops == [] {
      assert ([] + [op])[1..] == [];
    } else {
      assert ops[0].Valid();
      assert forall i :: 0 <= i < |ops| - 1 ==> ops[1..][i] == ops[i + 1];
      RunSnoc(Step(p, ops[0]), ops[1..], op);
      assert (ops + [op])[1..] == ops[1..] + [op];
    }
  }

  /** Over every run the flag says what the last holdable or flag operation made of it, and no other bit
      of the flags ever changes. */
  lemma {:induction false} RunFlags(p: Player, ops: seq<Op>, k: nat)
    requires p.Valid() && AllValid(ops)
    ensures TestBit(Run(p, ops).eFlags, k) <==>
            if k == 9 then FlagAfter(TestBit(p.eFlags, 9), ops) else TestBit(p.eFlags, k)
    decreases |ops|
  {
    if ops != [] {
      var init, op := ops[..|ops| - 1], ops[|ops| - 1];
      assert ops == init + [op] && AllValid(init) && op.Valid();
      RunSnoc(p, init, op);
      RunFlags(p, init, k);
      FlagOnly(Run(p, init).eFlags, op.SetHoldable? && op.holdable == MODELINDEX_KAMIKAZE, k);
    }
  }

  // ---------- reading back what was set ----------

  /** The player holds what the operation sets, as the getters see it. */
  predicate Holds(p: Player, op: Op)
    requires p.Valid() && op.Valid()
  {
    match op
    case SetArmor(armor) => p.stats[4] == armor
    case SetWeapons(weapons) => forall i :: 0 <= i < 15 ==> WeaponList(p.stats[3])[i] == if weapons[i] > 0 then 1 else 0
    case SetAmmos(ammos) => p.ammo[1..] == ammos
    case SetPowerups(levelTime, durations) =>
      forall i :: 0 <= i < 6 ==>
        p.powerups[[4, 5, 6, 7, 8, 10][i]] == Expiry(if levelTime.None? then 0 else levelTime.value, durations[i])
    case SetHoldable(holdable) => p.stats[1] == holdable
    case RemoveKamikazeFlag => !TestBit(p.eFlags, 9)
    case SetFlight(params) => [p.stats[11], p.stats[10], p.stats[9], p.stats[12]] == params
  }

  /** The entries of `stats` that an operation writes. */
  function StatsWritten(op: Op): set<nat> {
    match op
    case SetArmor(_) => {4}
    case SetWeapons(_) => {3}
    case SetHoldable(_) => {1}
    case SetFlight(_) => {9, 10, 11, 12}
    case _ => {}
  }

  /** Everything an operation does not write is as it was. */
  predicate Frame(p: Player, q: Player, op: Op)
    requires p.Valid() && q.Valid()
  {
    && (forall s :: 0 <= s < 16 && s !in StatsWritten(op) ==> q.stats[s] == p.stats[s])
    && (op.SetAmmos? || q.ammo == p.ammo) && q.ammo[0] == p.ammo[0]
    && (forall s :: 0 <= s < 16 && !(op.SetPowerups? && s in {4, 5, 6, 7, 8, 10}) ==> q.powerups[s] == p.powerups[s])
    && (op.SetHoldable? || op.RemoveKamikazeFlag? || q.eFlags == p.eFlags)
  }

  /** Each operation sets what it is called for and nothing else. */
  lemma {:induction false} StepSets(p: Player, op: Op)
    requires p.Valid() && op.Valid()
    ensures Holds(Step(p, op), op) && Frame(p, Step(p, op), op)
    ensures op.SetHoldable? ==> (TestBit(Step(p, op).eFlags, 9) <==> op.holdable == 35)
  {
    match op
    case SetWeapons(weapons) =>
      forall i | 0 <= i < 15
        ensures WeaponList(Step(p, op).stats[3])[i] == if weapons[i] > 0 then 1 else 0
      {
        WeaponsRoundTrip(weapons, i);
      }
    case SetPowerups(levelTime, durations) =>
      var now := if levelTime.None? then 0 else levelTime.value;
      PowerupsSet(p.powerups, now, durations, 6);
      SlotsAre();
    case SetHoldable(holdable) =>
      FlagOnly(p.eFlags, holdable == 35, 9);
    case RemoveKamikazeFlag =>
      FlagOnly(p.eFlags, false, 9);
    case _ =>
  }

  lemma SlotsAre()
    ensures forall i :: 0 <= i < 6 ==> PowerupSlot(i) == [4, 5, 6, 7, 8, 10][i]
  {}

  /** The later operation sets what the earlier one has set. */
  predicate Replaces(later: Op, op: Op) {
    match op
    case SetArmor(_) => later.SetArmor?
    case SetWeapons(_) => later.SetWeapons?
    case SetAmmos(_) => later.SetAmmos?
    case SetPowerups(_, _) => later.SetPowerups?
    case SetHoldable(_) => later.SetHoldable?
    case RemoveKamikazeFlag => later.SetHoldable? || later.RemoveKamikazeFlag?
    case SetFlight(_) => later.SetFlight?
  }

  lemma {:induction false} StepKeepsHeld(p: Player, op: Op, later: Op)
    requires p.Valid() && op.Valid() && later.Valid() && Holds(p, op) && !Replaces(later, op)
    ensures Holds(Step(p, later), op)
  {
    StepSets(p, later);
    var q := Step(p, later);
    if op.SetPowerups? {
      assert q.powerups == p.powerups;
    }
  }

  /** Over every run each getter reads what the last operation of its kind has set. */
  lemma {:induction false} RunReadsLast(p: Player, ops: seq<Op>, j: nat)
    requires p.Valid() && AllValid(ops) && j < |ops|
    requires forall k :: j < k < |ops| ==> !Replaces(ops[k], ops[j])
    ensures ops[j].Valid() && Holds(Run(p, ops), ops[j])
    decreases |ops|
  {
    var init, op := ops[..|ops| - 1], ops[|ops| - 1];
    assert ops == init + [op] && AllValid(init) && op.Valid();
    RunSnoc(p, init, op);
    if j == |ops| - 1 {
      StepSets(Run(p, init), op);
    } else {
      assert init[j] == ops[j];
      RunReadsLast(p, init, j);
      StepKeepsHeld(Run(p, init), ops[j], op);
    }
  }

  /** Over every run whatever no operation writes is as it was at the start: among the stats, the first entry of
      the ammunition, and all power-ups but the six. */
  lemma {:induction false} RunKeepsUnwritten(p: Player, ops: seq<Op>, s: nat)
    requires p.Valid() && AllValid(ops) && s < 16
    ensures var q := Run(p, ops);
            && ((forall op :: op in ops ==> s !in StatsWritten(op)) ==> q.stats[s] == p.stats[s])
            && ((forall op :: op in ops ==> !op.SetAmmos?) || s == 0 ==> q.ammo[s] == p.ammo[s])
            && ((forall op :: op in ops ==> !op.SetPowerups?) || s !in {4, 5, 6, 7, 8, 10} ==>
                  q.powerups[s] == p.powerups[s])
    decreases |ops|
  {
    if ops != [] {
      assert ops[0].Valid() && ops[0] in ops;
      assert forall op :: op in ops[1..] ==> op in ops;
      assert forall i :: 0 <= i < |ops| - 1 ==> ops[1..][i] == ops[i + 1];
      StepSets(p, ops[0]);
      RunKeepsUnwritten(Step(p, ops[0]), ops[1..], s);
    }
  }
}
