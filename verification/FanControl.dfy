/**
 The fan control of the hardware monitor: one tick of the thread's loop, run after run, and the
 decoding of the temperatures that feed it.
 */
module FanControl {
  import opened Basics
  import opened Bits

  /** Rising thresholds, falling thresholds and duties for three levels. */
  datatype ControlTable = ControlTable(up: (nat, nat, nat), down: (nat, nat, nat), duty: (nat, nat, nat))

  const HURACAN_F2B := ControlTable((77, 95, 105), (72, 77, 95), (0x6C, 0x9E, 0xFF))
  const SESTO_F2B := ControlTable((85, 95, 100), (71, 85, 95), (0x73, 0xCC, 0xFF))
  const NCIIX_F2B := ControlTable((62, 70, 85), (58, 66, 70), (0x70, 0xB7, 0xFF))
  const ASTERION_F2B := ControlTable((70, 75, 80), (60, 65, 70), (0x8B, 0xD1, 0xFF))
  const HURACAN_B2F := ControlTable((70, 77, 105), (60, 70, 77), (0x6C, 0xC7, 0xFF))
  const SESTO_B2F := ControlTable((71, 81, 105), (64, 81, 88), (0x73, 0xCC, 0xFF))
  const NCIIX_B2F := ControlTable((58, 63, 80), (54, 60, 63), (0x6F, 0xB7, 0xFF))
  const ASTERION_B2F := ControlTable((70, 75, 80), (60, 65, 70), (0x8B, 0xD1, 0xFF))

  datatype Input = Input(fanErr: bool, maxTemp: nat)

  /** What survives from tick to tick: the commanded duty, the last temperature, the start-up delay. */
  datatype FanState = FanState(duty: nat, lastTemp: nat, delay: nat)

  /** The duty for a temperature on the way up, and on the way down. */
  function RisingDuty(t: ControlTable, temp: nat): nat {
    if temp < t.up.0 then t.duty.0 else if temp < t.up.1 then t.duty.1 else t.duty.2
  }

  /** From the third threshold on there is no duty to command: the system is shut down. */
  function RisingCommand(t: ControlTable, temp: nat): nat {
    if temp < t.up.0 || temp < t.up.1 || temp < t.up.2 then RisingDuty(t, temp) else 0
  }

  function FallingDuty(t: ControlTable, temp: nat): nat {
    if temp <= t.down.0 then t.duty.0 else if temp <= t.down.1 then t.duty.1 else t.duty.2
  }

  function NextDuty(t: ControlTable, s: FanState, x: Input): nat {
    if x.fanErr then t.duty.2
    else if x.maxTemp > s.lastTemp then RisingCommand(t, x.maxTemp)
    else if x.maxTemp < s.lastTemp then FallingDuty(t, x.maxTemp)
    else 0
  }

  /** A tick: nothing but counting down while the delay runs; a duty of 0 means no new command. */
  function Step(t: ControlTable, s: FanState, x: Input): FanState {
    if s.delay > 0 then s.(delay := s.delay - 1)
    else
      var d := NextDuty(t, s, x);
      FanState(if d != 0 then d else s.duty, if x.fanErr then 0 else x.maxTemp, 0)
  }

  class FanController {
    var fanDuty: nat
    var lastTemp: nat
    var fanCtrlDelay: nat

    constructor (duty: nat)
      ensures Current() == FanState(duty, 0, 5)
    {
      fanDuty, lastTemp, fanCtrlDelay := duty, 0, 5;
    }

    ghost function Current(): FanState
      reads this
    {
      FanState(fanDuty, lastTemp, fanCtrlDelay)
    }

    /**
     The control part of one turn of the thread's loop. A tick of the delay only counts it down. A control
     tick commands the duty of a level by where the temperature lies, and which thresholds count depends on
     whether it rose or fell; at the temperature of the last tick nothing is commanded. A duty of 0 in the
     table is no command.
     */
    method Tick(table: ControlTable, fanErr: bool, maxTemp: nat) returns (shutdown: bool)
      modifies this
      ensures Current() == Step(table, old(Current()), Input(fanErr, maxTemp))
      ensures shutdown <==> old(fanCtrlDelay) == 0 && !fanErr && maxTemp > old(lastTemp)
                            && maxTemp >= table.up.0 && maxTemp >= table.up.1 && maxTemp >= table.up.2
      ensures old(fanCtrlDelay) > 0 ==>
                fanCtrlDelay == old(fanCtrlDelay) - 1 && fanDuty == old(fanDuty) && lastTemp == old(lastTemp)
      ensures old(fanCtrlDelay) == 0 ==> fanCtrlDelay == 0 && lastTemp == if fanErr then 0 else maxTemp
      ensures old(fanCtrlDelay) == 0 && fanErr && table.duty.2 > 0 ==> fanDuty == table.duty.2
      ensures old(fanCtrlDelay) == 0 && !fanErr && maxTemp == old(lastTemp) ==> fanDuty == old(fanDuty)
      ensures old(fanCtrlDelay) == 0 && !fanErr && maxTemp > old(lastTemp) ==>
                && (maxTemp < table.up.0 && table.duty.0 > 0 ==> fanDuty == table.duty.0)
                && (table.up.0 <= maxTemp < table.up.1 && table.duty.1 > 0 ==> fanDuty == table.duty.1)
                && (Max(table.up.0, table.up.1) <= maxTemp < table.up.2 && table.duty.2 > 0 ==> fanDuty == table.duty.2)
                && (maxTemp >= Max(table.up.0, Max(table.up.1, table.up.2)) ==> fanDuty == old(fanDuty))
      ensures old(fanCtrlDelay) == 0 && !fanErr && maxTemp < old(lastTemp) ==>
                && (maxTemp <= table.down.0 && table.duty.0 > 0 ==> fanDuty == table.duty.0)
                && (table.down.0 < maxTemp <= table.down.1 && table.duty.1 > 0 ==> fanDuty == table.duty.1)
                && (maxTemp > Max(table.down.0, table.down.1) && table.duty.2 > 0 ==> fanDuty == table.duty.2)
      ensures table.duty == (0, 0, 0) ==> fanDuty == old(fanDuty)
    {
      shutdown := false;
      if fanCtrlDelay == 0 {
        var duty := 0;
        if fanErr {
          duty := table.duty.2;
          lastTemp := 0;
        } else {
          if maxTemp > lastTemp {
            if maxTemp < table.up.0 {
              duty := table.duty.0;
            } else if maxTemp < table.up.1 {
              duty := table.duty.1;
            } else if maxTemp < table.up.2 {
              duty := table.duty.2;
            } else {
              shutdown := true;
            }
          } else if maxTemp < lastTemp {
            if maxTemp <= table.down.0 {
              duty := table.duty.0;
            } else if maxTemp <= table.down.1 {
              duty := table.duty.1;
            } else {
              duty := table.duty.2;
            }
          }
          lastTemp := maxTemp;
        }
        if duty != 0 && fanDuty != duty {
          fanDuty := duty;
        }
      }
      if fanCtrlDelay > 0 {
        fanCtrlDelay := fanCtrlDelay - 1;
      }
    }
  }

  // ----- Whole runs --------------------------------------------------------------------------

  function Run(t: ControlTable, s: FanState, xs: seq<Input>): FanState {
    if xs == [] then s else Step(t, Run(t, s, xs[..|xs| - 1]), xs[|xs| - 1])
  }

  /** The state a thread starts in, whatever duty is live. */
  predicate Initial(s: FanState) {
    s.lastTemp == 0 && s.delay == 5
  }

  /** The last tick of the run is a control tick: the start-up delay is over. */
  predicate ControlTick(xs: seq<Input>) {
    |xs| > 5
  }

  predicate PositiveDuties(t: ControlTable) {
    0 < t.duty.0 && 0 < t.duty.1 && 0 < t.duty.2
  }

  /** Duties and rising thresholds go up level by level, from above zero. */
  predicate Ascending(t: ControlTable) {
    0 < t.duty.0 < t.duty.1 < t.duty.2 && 0 < t.up.0 < t.up.1 < t.up.2
  }

  /** At every temperature below shutdown the falling duty is at least the rising one. */
  predicate FallingCovers(t: ControlTable) {
    forall temp :: 0 < temp < t.up.2 ==> FallingDuty(t, temp) >= RisingDuty(t, temp)
  }

  /** A run that ended on a temperature below shutdown leaves at least that temperature's duty. */
  predicate AtLeastRising(t: ControlTable, s: FanState, temp: nat) {
    0 < temp < t.up.2 ==> s.duty >= RisingDuty(t, temp)
  }

  ghost predicate KeepsFloor(t: ControlTable) {
    forall s: FanState, xs: seq<Input> :: Initial(s) && ControlTick(xs) && !xs[|xs| - 1].fanErr
              ==> AtLeastRising(t, Run(t, s, xs), xs[|xs| - 1].maxTemp)
  }

  lemma {:induction false} DelayRunsOut(t: ControlTable, s: FanState, xs: seq<Input>)
    requires Initial(s)
    ensures Run(t, s, xs).delay == if |xs| < 5 then 5 - |xs| else 0
  {
    if xs != [] {
      DelayRunsOut(t, s, xs[..|xs| - 1]);
    }
  }

  /** What the ticks keep: the live duty covers the temperature remembered. */
  lemma {:induction false} DutyCoversLastTemp(t: ControlTable, s: FanState, xs: seq<Input>)
    requires PositiveDuties(t) && FallingCovers(t) && Initial(s)
    ensures AtLeastRising(t, Run(t, s, xs), Run(t, s, xs).lastTemp)
  {
    if xs != [] {
      DutyCoversLastTemp(t, s, xs[..|xs| - 1]);
    }
  }

  /** Heat up past the level, then cool down to its threshold: five ticks of delay, then two that matter. */
  function CoolingRun(temp: nat): seq<Input> {
    [Input(true, 0), Input(true, 0), Input(true, 0), Input(true, 0), Input(true, 0),
     Input(false, temp + 1), Input(false, temp)]
  }

  lemma CoolingRunEndsFalling(t: ControlTable, s: FanState, temp: nat)
    requires Initial(s) && FallingDuty(t, temp) != 0
    ensures Run(t, s, CoolingRun(temp)).duty == FallingDuty(t, temp)
  {
    var xs := CoolingRun(temp);
    DelayRunsOut(t, s, xs[..5]);
    assert xs[..6][..5] == xs[..5];
    var s5 := Run(t, s, xs[..5]);
    var s6 := Run(t, s, xs[..6]);
    assert s6 == Step(t, s5, xs[5]) by {
      assert xs[..6][5] == xs[5];
    }
    assert s6.lastTemp == temp + 1 && s6.delay == 0;
  }

  /** The floor holds over all runs exactly for the tables whose falling duties cover the rising ones. */
  lemma FloorKeptIffFallingCovers(t: ControlTable)
    requires PositiveDuties(t)
    ensures KeepsFloor(t) <==> FallingCovers(t)
  {
    if FallingCovers(t) {
      forall s: FanState, xs: seq<Input> | Initial(s) && ControlTick(xs) && !xs[|xs| - 1].fanErr
        ensures AtLeastRising(t, Run(t, s, xs), xs[|xs| - 1].maxTemp)
      {
        DutyCoversLastTemp(t, s, xs);
        DelayRunsOut(t, s, xs[..|xs| - 1]);
      }
    } else {
      var temp :| 0 < temp < t.up.2 && FallingDuty(t, temp) < RisingDuty(t, temp);
      var s := FanState(0, 0, 5);
      var xs := CoolingRun(temp);
      CoolingRunEndsFalling(t, s, temp);
      assert !AtLeastRising(t, Run(t, s, xs), temp);
      assert ControlTick(xs) && xs[|xs| - 1] == Input(false, temp);
    }
  }

  /** It is enough that the first two falling thresholds lie strictly below the rising ones. */
  lemma FloorKeptWhenThresholdsApart(t: ControlTable)
    requires 0 < t.duty.0 <= t.duty.1 <= t.duty.2
    requires t.down.0 < t.up.0 && t.down.1 < t.up.1
    ensures KeepsFloor(t)
  {
    FloorKeptIffFallingCovers(t);
  }

  /** For levels that really go up, it is also necessary. */
  lemma FloorKeptIffThresholdsApart(t: ControlTable)
    requires Ascending(t)
    ensures KeepsFloor(t) <==> t.down.0 < t.up.0 && t.down.1 < t.up.1
  {
    FloorKeptIffFallingCovers(t);
    var temp := if t.down.0 >= t.up.0 then t.up.0 else t.up.1;
    assert t.down.0 >= t.up.0 || t.down.1 >= t.up.1 ==> FallingDuty(t, temp) < RisingDuty(t, temp);
  }

  /** Seven of the eight tables keep the floor; Sesto back to front does not. */
  lemma TablesThatKeepTheFloor()
    ensures KeepsFloor(HURACAN_F2B) && KeepsFloor(SESTO_F2B) && KeepsFloor(NCIIX_F2B) && KeepsFloor(ASTERION_F2B)
    ensures KeepsFloor(HURACAN_B2F) && KeepsFloor(NCIIX_B2F) && KeepsFloor(ASTERION_B2F)
    ensures !KeepsFloor(SESTO_B2F)
  {
    FloorKeptIffThresholdsApart(HURACAN_F2B);
    FloorKeptIffThresholdsApart(SESTO_F2B);
    FloorKeptIffThresholdsApart(NCIIX_F2B);
    FloorKeptIffThresholdsApart(ASTERION_F2B);
    FloorKeptIffThresholdsApart(HURACAN_B2F);
    FloorKeptIffThresholdsApart(NCIIX_B2F);
    FloorKeptIffThresholdsApart(ASTERION_B2F);
    FloorKeptIffThresholdsApart(SESTO_B2F);
  }

  /** A control tick with a fan fault commands the highest duty, in every run. */
  lemma FanErrorMeansFullDuty(t: ControlTable, s: FanState, xs: seq<Input>)
    requires Initial(s) && ControlTick(xs) && xs[|xs| - 1].fanErr && t.duty.2 > 0
    ensures Run(t, s, xs).duty == t.duty.2
  {
    DelayRunsOut(t, s, xs[..|xs| - 1]);
  }

  lemma {:induction false} RunAppend(t: ControlTable, s: FanState, xs: seq<Input>, ys: seq<Input>)
    ensures Run(t, s, xs + ys) == Run(t, Run(t, s, xs), ys)
  {
    if ys == [] {
      assert xs + ys == xs;
    } else {
      var k := |ys| - 1;
      assert (xs + ys)[..|xs| + k] == xs + ys[..k];
      RunAppend(t, s, xs, ys[..k]);
    }
  }

  lemma {:induction false} SteadyRun(t: ControlTable, s: FanState, ys: seq<Input>)
    requires s.delay == 0 && forall y :: y in ys ==> y == Input(false, s.lastTemp)
    ensures Run(t, s, ys) == s
  {
    if ys != [] {
      var k := |ys| - 1;
      assert ys[k] in ys && forall y :: y in ys[..k] ==> y in ys;
      SteadyRun(t, s, ys[..k]);
    }
  }

  /** Holding a temperature keeps the duty of the tick that reached it, whichever way it was reached. */
  lemma HoldingKeepsDuty(t: ControlTable, s: FanState, xs: seq<Input>, ys: seq<Input>)
    requires Initial(s) && ControlTick(xs) && !xs[|xs| - 1].fanErr
    requires forall y :: y in ys ==> y == xs[|xs| - 1]
    ensures Run(t, s, xs + ys) == Run(t, s, xs)
  {
    DelayRunsOut(t, s, xs);
    DelayRunsOut(t, s, xs[..|xs| - 1]);
    RunAppend(t, s, xs, ys);
    SteadyRun(t, Run(t, s, xs), ys);
  }

  /** The two duties of 74 degrees on Huracan, front to back: held after a rise, and held after a fall. */
  lemma DutyDependsOnTheWay(s: FanState, ys: seq<Input>)
    requires s.delay == 0 && s.lastTemp != 74 && forall y :: y in ys ==> y == Input(false, 74)
    ensures Run(HURACAN_F2B, Step(HURACAN_F2B, s, Input(false, 74)), ys).duty == if s.lastTemp < 74 then 0x6C else 0x9E
  {
    SteadyRun(HURACAN_F2B, Step(HURACAN_F2B, s, Input(false, 74)), ys);
  }

  /**
   The hysteresis has no memory: after a fall to a temperature, a rise of one degree lowers the duty exactly
   in the two bands between a falling threshold and the rising one above it.
   */
  lemma SlightRiseUndoesHysteresis(t: ControlTable, s: FanState, temp: nat)
    requires Ascending(t) && s.delay == 0 && s.lastTemp > temp
    ensures var s1 := Step(t, s, Input(false, temp));
            Step(t, s1, Input(false, temp + 1)).duty < s1.duty
            <==> t.down.0 < temp < t.up.0 - 1 || (t.down.0 < temp && t.down.1 < temp < t.up.1 - 1)
  {
  }

  /** On Huracan, front to back: 74 degrees on the way down command more than 75 on the way up again. */
  lemma HuracanRiseLowersDuty(s: FanState)
    requires s.delay == 0 && s.lastTemp > 74
    ensures var s1 := Step(HURACAN_F2B, s, Input(false, 74));
            s1.duty == 0x9E && Step(HURACAN_F2B, s1, Input(false, 75)).duty == 0x6C
  {
  }

  // ----- Temperatures ------------------------------------------------------------------------

  /** The integer part the driver stores for the two temperature registers. */
  function RemoteTempInt(high: byte, low: byte): nat {
    if high >= 0x80 then
      (Xor(high * 4 + low / 64, 0x1FF) + 1) / 4
    else high
  }

  /** The reading in quarter degrees: ten bits of two's complement. */
  function QuarterDegrees(high: byte, low: byte): int {
    var q := high * 4 + low / 64;
    if q >= 0x200 then q - 0x400 else q
  }

  /**
   A reading is stored as its magnitude exactly when it is not negative; a negative one comes out
   128 degrees too hot, because the sign bit survives the complement.
   */
  lemma RemoteTempMagnitude(high: byte, low: byte)
    ensures var q := QuarterDegrees(high, low);
            && (q >= 0 ==> RemoteTempInt(high, low) == q / 4)
            && (q < 0 ==> RemoteTempInt(high, low) == 128 + (-q) / 4)
  {
    hide Xor, Pow2;
    if high >= 0x80 {
      var q := high * 4 + low / 64;
      NinthPower();
      XorLowOnes(1, q - 0x200, 9);
    }
  }

  lemma NinthPower()
    ensures Pow2(9) == 0x200
  {
  }

  /** The hottest of the MAC temperature and the sensors. */
  method MaxTemp(macTemp: nat, remote: seq<nat>) returns (maxTemp: nat)
    ensures maxTemp >= macTemp && forall i :: 0 <= i < |remote| ==> maxTemp >= remote[i]
    ensures maxTemp == macTemp || maxTemp in remote
  {
    maxTemp := macTemp;
    for i := 0 to |remote|
      invariant maxTemp >= macTemp && forall k :: 0 <= k < i ==> maxTemp >= remote[k]
      invariant maxTemp == macTemp || maxTemp in remote
    {
      if remote[i] > maxTemp {
        maxTemp := remote[i];
      }
    }
  }

  /** One sensor below zero is enough: on any of the tables the next control tick orders a shutdown. */
  method ColdSensorTick(fc: FanController, table: ControlTable, macTemp: nat, readings: seq<(byte, byte)>, cold: nat)
    returns (shutdown: bool)
    requires table in {HURACAN_F2B, SESTO_F2B, NCIIX_F2B, ASTERION_F2B, HURACAN_B2F, SESTO_B2F, NCIIX_B2F, ASTERION_B2F}
    requires cold < |readings| && QuarterDegrees(readings[cold].0, readings[cold].1) < 0
    requires fc.fanCtrlDelay == 0 && fc.lastTemp < 128
    modifies fc
    ensures shutdown && fc.fanDuty == old(fc.fanDuty)
  {
    var remote := seq(|readings|, i requires 0 <= i < |readings| => RemoteTempInt(readings[i].0, readings[i].1));
    RemoteTempMagnitude(readings[cold].0, readings[cold].1);
    assert remote[cold] >= 128;
    var maxTemp := MaxTemp(macTemp, remote);
    shutdown := fc.Tick(table, false, maxTemp);
  }
}
