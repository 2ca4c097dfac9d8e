/**
 The AS4610 LED driver: thirteen LEDs packed into five CPLD registers, behind a register cache that
 expires and is read back.
 */
module As4610Leds {
  import opened Modular

  datatype Led =
    | Sys | Pri | Psu1 | Psu2 | Stk1 | Stk2
    | Tens | TensPoint | Digits | DigitsPoint
    | Fan | Poe | Alarm

  type Mode = bv8

  const OFF: Mode := 0
  const GREEN: Mode := 1
  const GREEN_BLINK: Mode := 2
  const AMBER: Mode := 3
  const AMBER_BLINK: Mode := 4
  const AUTO: Mode := 9
  const AUTO_BLINKING: Mode := 10
  const SEVEN_SEGMENT_MAX: Mode := 9

  /** Register 0 holds the blink bits, 1 and 2 the two digits, 3 and 4 the colours. */
  const NUM_REGS := 5

  datatype Regs = Regs(r0: bv8, r1: bv8, r2: bv8, r3: bv8, r4: bv8) {
    function At(i: nat): bv8
      requires i < NUM_REGS
    {
      match i case 0 => r0 case 1 => r1 case 2 => r2 case 3 => r3 case 4 => r4
    }

    function With(i: nat, v: bv8): Regs
      requires i < NUM_REGS
    {
      match i
      case 0 => this.(r0 := v)
      case 1 => this.(r1 := v)
      case 2 => this.(r2 := v)
      case 3 => this.(r3 := v)
      case 4 => this.(r4 := v)
    }
  }

  // ----- The layout --------------------------------------------------------------------------

  predicate IsAuto(led: Led) {
    led.Psu1? || led.Psu2? || led.Fan?
  }

  predicate IsSegment(led: Led) {
    led.Tens? || led.Digits?
  }

  predicate IsPoint(led: Led) {
    led.TensPoint? || led.DigitsPoint?
  }

  function MaxBrightness(led: Led): Mode {
    if IsAuto(led) then AUTO_BLINKING
    else if IsSegment(led) then SEVEN_SEGMENT_MAX
    else if IsPoint(led) then GREEN
    else AMBER_BLINK
  }

  /** The modes that a setter does not ignore. */
  predicate Accepts(led: Led, mode: Mode) {
    mode <= MaxBrightness(led) && (IsAuto(led) ==> mode >= AUTO)
  }

  // ----- The converters ----------------------------------------------------------------------

  predicate IsBlinking(mode: Mode) {
    mode == GREEN_BLINK || mode == AMBER_BLINK || mode == AUTO_BLINKING
  }

  function ModeToRegVal(mode: Mode): bv8 {
    var m := if IsBlinking(mode) then mode - 1 else mode;
    if m == GREEN then 0x02 else if m == AMBER then 0x01 else 0x00
  }

  function RegValToMode(v: bv8): Mode {
    if v & 0x02 != 0 then GREEN else if v & 0x01 != 0 then AMBER else OFF
  }

  function BlinkReg(r: bv8, mask: bv8, on: bool): bv8 {
    if on then r | mask else r & !mask
  }

  function ColourReg(r: bv8, mask: bv8, shift: bv8, mode: Mode): bv8
    requires shift <= 6
  {
    (r & !mask) | (ModeToRegVal(mode) << shift)
  }

  function SegmentReg(r: bv8, mode: Mode): bv8 {
    (r & 0xF0) | mode
  }

  function PointReg(r: bv8, mode: Mode): bv8 {
    if mode == OFF then r & !0x10 else r | 0x10
  }

  /** The registers after an accepted set: each LED's own call of its setter. */
  function Encode(led: Led, regs: Regs, mode: Mode): Regs {
    var on := IsBlinking(mode);
    match led
    case Sys => regs.(r0 := BlinkReg(regs.r0, 0x80, on), r3 := ColourReg(regs.r3, 0xC0, 6, mode))
    case Pri => regs.(r0 := BlinkReg(regs.r0, 0x40, on), r3 := ColourReg(regs.r3, 0x30, 4, mode))
    case Psu1 => regs.(r0 := BlinkReg(regs.r0, 0x20, on))
    case Psu2 => regs.(r0 := BlinkReg(regs.r0, 0x10, on))
    case Stk1 => regs.(r0 := BlinkReg(regs.r0, 0x08, on), r4 := ColourReg(regs.r4, 0xC0, 6, mode))
    case Stk2 => regs.(r0 := BlinkReg(regs.r0, 0x04, on), r4 := ColourReg(regs.r4, 0x30, 4, mode))
    case Tens => regs.(r2 := SegmentReg(regs.r2, mode))
    case TensPoint => regs.(r2 := PointReg(regs.r2, mode))
    case Digits => regs.(r1 := SegmentReg(regs.r1, mode))
    case DigitsPoint => regs.(r1 := PointReg(regs.r1, mode))
    case Fan => regs.(r0 := BlinkReg(regs.r0, 0x02, on))
    case Poe => regs.(r0 := BlinkReg(regs.r0, 0x01, on), r4 := ColourReg(regs.r4, 0x03, 0, mode))
    case Alarm => regs.(r0 := BlinkReg(regs.r0, 0x01, on), r4 := ColourReg(regs.r4, 0x03, 0, mode))
  }

  /** The register that holds the LED, besides its blink bit. */
  function Place(led: Led): (i: nat)
    ensures i < NUM_REGS
  {
    match led
    case Sys => 3
    case Pri => 3
    case Stk1 => 4
    case Stk2 => 4
    case Poe => 4
    case Alarm => 4
    case Tens => 2
    case TensPoint => 2
    case Digits => 1
    case DigitsPoint => 1
    case _ => 0
  }

  /** What a get returns on these registers: each LED's own call of its getter. */
  function Decode(led: Led, regs: Regs): Mode {
    match led
    case Sys => NormalMode(regs.r3, regs.r0, 0x80, 6)
    case Pri => NormalMode(regs.r3, regs.r0, 0x40, 4)
    case Psu1 => AutoMode(regs.r0, 0x20)
    case Psu2 => AutoMode(regs.r0, 0x10)
    case Stk1 => NormalMode(regs.r4, regs.r0, 0x08, 6)
    case Stk2 => NormalMode(regs.r4, regs.r0, 0x04, 4)
    case Tens => regs.r2 & 0x0F
    case TensPoint => PointMode(regs.r2)
    case Digits => regs.r1 & 0x0F
    case DigitsPoint => PointMode(regs.r1)
    case Fan => AutoMode(regs.r0, 0x02)
    case Poe => NormalMode(regs.r4, regs.r0, 0x01, 0)
    case Alarm => NormalMode(regs.r4, regs.r0, 0x01, 0)
  }

  function AutoMode(blink: bv8, blinkMask: bv8): Mode {
    if blink & blinkMask != 0 then AUTO_BLINKING else AUTO
  }

  function PointMode(r: bv8): Mode {
    if r & 0x10 != 0 then GREEN else OFF
  }

  function NormalMode(colour: bv8, blink: bv8, blinkMask: bv8, shift: bv8): Mode
    requires shift <= 6
  {
    var mode := RegValToMode(colour >> shift);
    if mode == OFF then OFF else if blink & blinkMask != 0 then mode + 1 else mode
  }

  // ----- Independence ------------------------------------------------------------------------

  /** POE and ALARM are one lamp under two names. */
  predicate Separate(a: Led, b: Led) {
    a != b && !(a in {Poe, Alarm} && b in {Poe, Alarm})
  }

  /** The bits that belong to the LED. */
  function Own(led: Led): Regs {
    match led
    case Sys => Regs(0x80, 0, 0, 0xC0, 0)
    case Pri => Regs(0x40, 0, 0, 0x30, 0)
    case Psu1 => Regs(0x20, 0, 0, 0, 0)
    case Psu2 => Regs(0x10, 0, 0, 0, 0)
    case Stk1 => Regs(0x08, 0, 0, 0, 0xC0)
    case Stk2 => Regs(0x04, 0, 0, 0, 0x30)
    case Tens => Regs(0, 0, 0x0F, 0, 0)
    case TensPoint => Regs(0, 0, 0x10, 0, 0)
    case Digits => Regs(0, 0x0F, 0, 0, 0)
    case DigitsPoint => Regs(0, 0x10, 0, 0, 0)
    case Fan => Regs(0x02, 0, 0, 0, 0)
    case Poe => Regs(0x01, 0, 0, 0, 0x03)
    case Alarm => Regs(0x01, 0, 0, 0, 0x03)
  }

  function Bits(r: bv8, mask: bv8): bv8 {
    r & mask
  }

  function Flip(mask: bv8): bv8 {
    !mask
  }

  function Masked(a: Regs, m: Regs): Regs {
    Regs(Bits(a.r0, m.r0), Bits(a.r1, m.r1), Bits(a.r2, m.r2), Bits(a.r3, m.r3), Bits(a.r4, m.r4))
  }

  function Others(m: Regs): Regs {
    Regs(Flip(m.r0), Flip(m.r1), Flip(m.r2), Flip(m.r3), Flip(m.r4))
  }

  /**
   The bits in plain numbers. Two bits of colour: 2 and 3 are green and 1 is amber; one bit of register 0
   that makes the lamp blink; four bits of a digit, and one of its point.
   */
  lemma GetLayout(r: Regs)
    ensures Decode(Sys, r) == (if r.r3 & 0xC0 == 0 then 0
                              else (if r.r3 & 0x80 != 0 then 1 else 3) + if r.r0 & 0x80 != 0 then 1 else 0)
    ensures Decode(Pri, r) == (if r.r3 & 0x30 == 0 then 0
                              else (if r.r3 & 0x20 != 0 then 1 else 3) + if r.r0 & 0x40 != 0 then 1 else 0)
    ensures Decode(Stk1, r) == (if r.r4 & 0xC0 == 0 then 0
                              else (if r.r4 & 0x80 != 0 then 1 else 3) + if r.r0 & 0x08 != 0 then 1 else 0)
    ensures Decode(Stk2, r) == (if r.r4 & 0x30 == 0 then 0
                              else (if r.r4 & 0x20 != 0 then 1 else 3) + if r.r0 & 0x04 != 0 then 1 else 0)
    ensures Decode(Poe, r) == (if r.r4 & 0x03 == 0 then 0
                              else (if r.r4 & 0x02 != 0 then 1 else 3) + if r.r0 & 0x01 != 0 then 1 else 0)
    ensures Decode(Alarm, r) == (if r.r4 & 0x03 == 0 then 0
                              else (if r.r4 & 0x02 != 0 then 1 else 3) + if r.r0 & 0x01 != 0 then 1 else 0)
    ensures Decode(Psu1, r) == (if r.r0 & 0x20 != 0 then 10 else 9)
    ensures Decode(Psu2, r) == (if r.r0 & 0x10 != 0 then 10 else 9)
    ensures Decode(Fan, r) == (if r.r0 & 0x02 != 0 then 10 else 9)
    ensures Decode(Tens, r) == r.r2 % 16 && Decode(Digits, r) == r.r1 % 16
    ensures Decode(TensPoint, r) == (r.r2 >> 4) % 2 && Decode(DigitsPoint, r) == (r.r1 >> 4) % 2
  {
  }

  /** Of a lamp's two bits green sets the high one and amber the low one; all but blinking modes clear the blink bit, */
  lemma SetLayout(led: Led, r: Regs, mode: Mode)
    requires IsNormal(led) && mode <= 4
    ensures var e := Encode(led, r, mode);
            && e.r0 & Own(led).r0 == (if mode == 2 || mode == 4 then Own(led).r0 else 0)
            && e.At(Place(led)) & Own(led).At(Place(led))
               == Own(led).At(Place(led)) & (if mode == 0 then 0 else if mode <= 2 then 0xAA else 0x55)
  {
  }

  /** and each kind of LED takes its own modes. */
  lemma AcceptedModes(led: Led, mode: Mode)
    ensures led in {Sys, Pri, Stk1, Stk2, Poe, Alarm} ==> (Accepts(led, mode) <==> mode <= 4)
    ensures led in {Psu1, Psu2, Fan} ==> (Accepts(led, mode) <==> mode == 9 || mode == 10)
    ensures led in {Tens, Digits} ==> (Accepts(led, mode) <==> mode <= 9)
    ensures led in {TensPoint, DigitsPoint} ==> (Accepts(led, mode) <==> mode <= 1)
  {
  }

  lemma DecodeLooksAtOwnBits(led: Led, a: Regs, b: Regs)
    requires Masked(a, Own(led)) == Masked(b, Own(led))
    ensures Decode(led, a) == Decode(led, b)
  {
  }

  lemma BlinkRegIsOwn(r: bv8, mask: bv8, on: bool)
    ensures Bits(BlinkReg(r, mask, on), Flip(mask)) == Bits(r, Flip(mask))
  {
  }

  lemma ColourRegIsOwn(r: bv8, mode: Mode)
    ensures Bits(ColourReg(r, 0xC0, 6, mode), Flip(0xC0)) == Bits(r, Flip(0xC0))
    ensures Bits(ColourReg(r, 0x30, 4, mode), Flip(0x30)) == Bits(r, Flip(0x30))
    ensures Bits(ColourReg(r, 0x03, 0, mode), Flip(0x03)) == Bits(r, Flip(0x03))
  {
  }

  lemma SegmentRegIsOwn(r: bv8, mode: Mode)
    requires mode <= SEVEN_SEGMENT_MAX
    ensures Bits(SegmentReg(r, mode), Flip(0x0F)) == Bits(r, Flip(0x0F))
  {
  }

  lemma PointRegIsOwn(r: bv8, mode: Mode)
    ensures Bits(PointReg(r, mode), Flip(0x10)) == Bits(r, Flip(0x10))
  {
  }

  predicate IsNormal(led: Led) {
    !IsSegment(led) && !IsPoint(led) && !IsAuto(led)
  }

  lemma NormalKeepsOtherBits(led: Led, regs: Regs, mode: Mode)
    requires IsNormal(led)
    ensures Masked(Encode(led, regs, mode), Others(Own(led))) == Masked(regs, Others(Own(led)))
  {
    hide Bits, Flip, BlinkReg, ColourReg, SegmentReg, PointReg, IsBlinking;
    BlinkRegIsOwn(regs.r0, Own(led).r0, IsBlinking(mode));
    ColourRegIsOwn(regs.r3, mode);
    ColourRegIsOwn(regs.r4, mode);
  }

  lemma EncodeKeepsOtherBits(led: Led, regs: Regs, mode: Mode)
    requires Accepts(led, mode)
    ensures Masked(Encode(led, regs, mode), Others(Own(led))) == Masked(regs, Others(Own(led)))
  {
    hide Bits, Flip, BlinkReg, ColourReg, SegmentReg, PointReg, IsBlinking;
    if IsNormal(led) {
      NormalKeepsOtherBits(led, regs, mode);
    } else if IsAuto(led) {
      BlinkRegIsOwn(regs.r0, Own(led).r0, IsBlinking(mode));
    } else if IsPoint(led) {
      PointRegIsOwn(regs.r1, mode);
      PointRegIsOwn(regs.r2, mode);
    } else {
      SegmentRegIsOwn(regs.r1, mode);
      SegmentRegIsOwn(regs.r2, mode);
    }
  }

  lemma OwnBitsAreDisjoint(a: Led, b: Led)
    requires Separate(a, b)
    ensures Masked(Own(a), Own(b)) == Regs(0, 0, 0, 0, 0)
  {
  }

  lemma DisjointMasks(x: Regs, y: Regs, m1: Regs, m2: Regs)
    requires Masked(x, Others(m1)) == Masked(y, Others(m1)) && Masked(m1, m2) == Regs(0, 0, 0, 0, 0)
    ensures Masked(x, m2) == Masked(y, m2)
  {
  }

  lemma GetAfterSet(led: Led, regs: Regs, mode: Mode)
    requires Accepts(led, mode)
    ensures Decode(led, Encode(led, regs, mode)) == mode
  {
  }

  /** Setting one LED never changes what another shows. */
  lemma GetAfterOtherSet(led: Led, other: Led, regs: Regs, mode: Mode)
    requires Accepts(led, mode) && Separate(led, other)
    ensures Decode(other, Encode(led, regs, mode)) == Decode(other, regs)
  {
    hide Own, Encode, Decode, Masked, Others, Accepts, Separate;
    EncodeKeepsOtherBits(led, regs, mode);
    OwnBitsAreDisjoint(led, other);
    DisjointMasks(Encode(led, regs, mode), regs, Own(led), Own(other));
    DecodeLooksAtOwnBits(other, Encode(led, regs, mode), regs);
  }

  // ----- Products ----------------------------------------------------------------------------

  datatype Product = Pid30T | Pid30P | Pid54T | Pid54P | Pid54TB | PidReserved

  const COMMON_LEDS := {Sys, Pri, Psu1, Psu2, Stk1, Stk2}
  const SEGMENT_LEDS := {Tens, TensPoint, Digits, DigitsPoint}

  function LedMap(pid: Product): set<Led> {
    match pid
    case Pid30T => COMMON_LEDS + SEGMENT_LEDS
    case Pid54T => COMMON_LEDS + SEGMENT_LEDS
    case Pid30P => COMMON_LEDS + SEGMENT_LEDS + {Fan, Poe}
    case Pid54P => COMMON_LEDS + SEGMENT_LEDS + {Fan, Poe}
    case Pid54TB => COMMON_LEDS + {Fan, Alarm}
    case PidReserved => {}
  }

  /** No product has both names of the shared lamp, so all its LEDs are independent. */
  lemma ProductLedsAreSeparate(pid: Product, a: Led, b: Led)
    requires a in LedMap(pid) && b in LedMap(pid) && a != b
    ensures Separate(a, b)
  {
  }

  // ----- A cache that does not match the hardware --------------------------------------------

  /** All bits of the registers that a set rewrites. */
  function Touched(led: Led): Regs {
    match led
    case Sys => Regs(0xFF, 0, 0, 0xFF, 0)
    case Pri => Regs(0xFF, 0, 0, 0xFF, 0)
    case Stk1 => Regs(0xFF, 0, 0, 0, 0xFF)
    case Stk2 => Regs(0xFF, 0, 0, 0, 0xFF)
    case Poe => Regs(0xFF, 0, 0, 0, 0xFF)
    case Alarm => Regs(0xFF, 0, 0, 0, 0xFF)
    case Tens => Regs(0, 0, 0xFF, 0, 0)
    case TensPoint => Regs(0, 0, 0xFF, 0, 0)
    case Digits => Regs(0, 0xFF, 0, 0, 0)
    case DigitsPoint => Regs(0, 0xFF, 0, 0, 0)
    case _ => Regs(0xFF, 0, 0, 0, 0)
  }

  function Chosen(on: bv8, a: bv8, b: bv8): bv8 {
    if on == 0xFF then a else b
  }

  /** The hardware after a set that was computed from the cache: the touched registers are replaced. */
  function HardwareAfter(led: Led, cache: Regs, regs: Regs, mode: Mode): Regs {
    Replaced(Touched(led), Encode(led, cache, mode), regs)
  }

  function Replaced(t: Regs, e: Regs, regs: Regs): Regs {
    Regs(Chosen(t.r0, e.r0, regs.r0), Chosen(t.r1, e.r1, regs.r1), Chosen(t.r2, e.r2, regs.r2),
         Chosen(t.r3, e.r3, regs.r3), Chosen(t.r4, e.r4, regs.r4))
  }

  /** The bits of others in the registers that a set rewrites. */
  function Exposed(led: Led): Regs {
    Masked(Touched(led), Others(Own(led)))
  }

  lemma ChosenMask(t: bv8, own: bv8, e: bv8, c: bv8, r: bv8)
    requires t == 0 || t == 0xFF
    requires Bits(e, Flip(own)) == Bits(c, Flip(own))
    ensures Bits(Chosen(t, e, r), Flip(own)) == Bits(r, Flip(own))
       <==> Bits(c, Bits(t, Flip(own))) == Bits(r, Bits(t, Flip(own)))
  {
  }

  predicate Whole(t: Regs) {
    && (t.r0 == 0 || t.r0 == 0xFF) && (t.r1 == 0 || t.r1 == 0xFF) && (t.r2 == 0 || t.r2 == 0xFF)
    && (t.r3 == 0 || t.r3 == 0xFF) && (t.r4 == 0 || t.r4 == 0xFF)
  }

  lemma TouchedIsWhole(led: Led)
    ensures Whole(Touched(led))
  {
  }

  lemma ChosenMasks(t: Regs, own: Regs, e: Regs, c: Regs, r: Regs)
    requires Whole(t) && Masked(e, Others(own)) == Masked(c, Others(own))
    ensures Masked(Replaced(t, e, r), Others(own)) == Masked(r, Others(own))
       <==> Masked(c, Masked(t, Others(own))) == Masked(r, Masked(t, Others(own)))
  {
    hide Chosen, Bits, Flip;
    ChosenMask(t.r0, own.r0, e.r0, c.r0, r.r0);
    ChosenMask(t.r1, own.r1, e.r1, c.r1, r.r1);
    ChosenMask(t.r2, own.r2, e.r2, c.r2, r.r2);
    ChosenMask(t.r3, own.r3, e.r3, c.r3, r.r3);
    ChosenMask(t.r4, own.r4, e.r4, c.r4, r.r4);
  }

  /**
   A set leaves every bit that belongs to others alone exactly when the cache agrees with the
   hardware on them, in the registers it rewrites.
   */
  lemma SetSparesOthersIffCacheAgrees(led: Led, cache: Regs, regs: Regs, mode: Mode)
    requires Accepts(led, mode)
    ensures Masked(HardwareAfter(led, cache, regs, mode), Others(Own(led))) == Masked(regs, Others(Own(led)))
       <==> Masked(cache, Exposed(led)) == Masked(regs, Exposed(led))
  {
    hide Own, Encode, Touched, Accepts, Masked, Others, Replaced, Whole;
    EncodeKeepsOtherBits(led, cache, mode);
    TouchedIsWhole(led);
    ChosenMasks(Touched(led), Own(led), Encode(led, cache, mode), cache, regs);
  }

  /** While no read of the registers has succeeded, a set works on the all-zero cache and can put out another LED. */
  lemma FirstSetPutsOutAnother(regs: Regs)
    requires Decode(Sys, regs) == GREEN
    ensures Decode(Sys, HardwareAfter(Pri, Regs(0, 0, 0, 0, 0), regs, AMBER)) == OFF
  {
  }

  // ----- The driver --------------------------------------------------------------------------

  /** One access to the CPLD, as it went. */
  datatype Access = Fetch(i: nat, ok: bool) | Store(i: nat, v: bv8, ok: bool)

  /** The accesses of an update that gets so many of the five registers. */
  function Fetches(got: nat): seq<Access> {
    seq(got, i requires 0 <= i < got => Fetch(i, true)) + if got < NUM_REGS then [Fetch(got, false)] else []
  }

  /** The CPLD: reads and writes may fail, and a failed write changes nothing. */
  class Cpld {
    var regs: Regs
    ghost var writeFaults: nat
    /** All accesses so far, in order. */
    ghost var log: seq<Access>

    constructor (regs: Regs)
      ensures this.regs == regs
    {
      this.regs, writeFaults, log := regs, 0, [];
    }

    method ReadValue(i: nat) returns (ok: bool, v: bv8)
      requires i < NUM_REGS
      modifies this`log
      ensures log == old(log) + [Fetch(i, ok)]
      ensures ok ==> v == regs.At(i)
    {
      ok, v := *, regs.At(i);
      log := log + [Fetch(i, ok)];
    }

    method WriteValue(i: nat, v: bv8) returns (ghost ok: bool)
      requires i < NUM_REGS
      modifies this
      ensures log == old(log) + [Store(i, v, ok)]
      ensures writeFaults == old(writeFaults) + if ok then 0 else 1
      ensures regs == if ok then old(regs).With(i, v) else old(regs)
    {
      if * {
        regs, ok := regs.With(i, v), true;
      } else {
        writeFaults, ok := writeFaults + 1, false;
      }
      log := log + [Store(i, v, ok)];
    }
  }

  /** The cache, the hardware, and the accesses so far. */
  datatype State = State(cache: Regs, valid: bool, lastUpdated: nat, regs: Regs, faults: nat, log: seq<Access>) {
    /** A register value went into the cache and, if the write succeeded, into the hardware. */
    function After(i: nat, v: bv8, ok: bool): State
      requires i < NUM_REGS
    {
      this.(cache := cache.With(i, v), regs := if ok then regs.With(i, v) else regs,
            faults := if ok then faults else faults + 1, log := log + [Store(i, v, ok)])
    }
  }

  class LedController {
    const cpld: Cpld
    var regVal: Regs
    var valid: bool
    var lastUpdated: nat
    /** The modulus of jiffies and the tick rate. */
    const word: nat
    const hz: nat

    constructor (cpld: Cpld, word: nat, hz: nat)
      requires word > 0
      ensures !valid && this.cpld == cpld && regVal == Regs(0, 0, 0, 0, 0) && lastUpdated == 0
      ensures this.word == word && this.hz == hz
    {
      this.cpld, valid, regVal, lastUpdated := cpld, false, Regs(0, 0, 0, 0, 0), 0;
      this.word, this.hz := word, hz;
    }

    /** The cache shows what the hardware holds. */
    ghost predicate Coherent()
      reads this, cpld
    {
      regVal == cpld.regs
    }

    ghost function Now(): State
      reads this, cpld
    {
      State(regVal, valid, lastUpdated, cpld.regs, cpld.writeFaults, cpld.log)
    }

    /** The cache is due for an update: a second and a half have passed, or there is nothing valid in it. */
    predicate Due(now: nat)
      requires word > 0
      reads this
    {
      TimeAfter(word, now, (lastUpdated + hz + hz / 2) % word) || !valid
    }

    /**
     Refreshes the cache if it is due, register by register up to the first failure, which leaves the rest as it
     was and makes the cache invalid. The result counts the registers read.
     */
    method Update(now: nat) returns (got: nat)
      requires word > 0
      modifies this, cpld`log
      ensures valid <==> (!old(Due(now)) || got == 5)
      ensures !old(Due(now)) ==> got == 0 && cpld.log == old(cpld.log)
      ensures old(Due(now)) ==> got <= 5 && cpld.log == old(cpld.log) + Fetches(got)
      ensures forall i :: 0 <= i < 5 ==> regVal.At(i) == if i < got then cpld.regs.At(i) else old(regVal).At(i)
      ensures lastUpdated == if got == 5 then now else old(lastUpdated)
      ensures old(Coherent()) || got == 5 ==> Coherent()
      ensures !old(Due(now)) ==> regVal == old(regVal)
    {
      got := 0;
      if TimeAfter(word, now, (lastUpdated + hz + hz / 2) % word) || !valid {
        got := FetchAll();
        valid := got == NUM_REGS;
        if valid || old(Coherent()) {
          SameRegs(regVal, cpld.regs);
        }
        if !valid {
          return;
        }
        lastUpdated := now;
      }
    }

    /** Register by register, up to the first failure. */
    method FetchAll() returns (got: nat)
      modifies this`regVal, cpld`log
      ensures got <= 5 && cpld.log == old(cpld.log) + Fetches(got)
      ensures forall i :: 0 <= i < 5 ==> regVal.At(i) == if i < got then cpld.regs.At(i) else old(regVal).At(i)
    {
      got := 0;
      while got < NUM_REGS
        invariant 0 <= got <= NUM_REGS
        invariant forall k :: 0 <= k < 5 ==> regVal.At(k) == if k < got then cpld.regs.At(k) else old(regVal).At(k)
        invariant cpld.log == old(cpld.log) + seq(got, k requires 0 <= k < got => Fetch(k, true))
      {
        var ok, v := cpld.ReadValue(got);
        if !ok {
          return;
        }
        regVal := regVal.With(got, v);
        got := got + 1;
      }
    }

    /** One read-modify-write, first in the cache and then, if the write succeeds, in the hardware. */
    method Rewrite(i: nat, v: bv8) returns (ghost ok: bool)
      requires i < NUM_REGS
      modifies this`regVal, cpld
      ensures Now() == old(Now()).After(i, v, ok)
    {
      regVal := regVal.With(i, v);
      ok := cpld.WriteValue(i, v);
    }

    method SegmentSet(max: Mode, mode: Mode, i: nat) returns (ghost ok: bool)
      requires i < NUM_REGS
      modifies this`regVal, cpld
      ensures mode > max ==> Now() == old(Now())
      ensures mode <= max ==> Now() == old(Now()).After(i, (old(regVal).At(i) & 0xF0) | mode, ok)
    {
      if mode > max {
        return true;
      }
      ok := Rewrite(i, (regVal.At(i) & 0xF0) | mode);
    }

    method PointSet(max: Mode, mode: Mode, i: nat) returns (ghost ok: bool)
      requires i < NUM_REGS
      modifies this`regVal, cpld
      ensures mode > max ==> Now() == old(Now())
      ensures mode <= max ==> Now() == old(Now()).After(i, PointReg(old(regVal).At(i), mode), ok)
    {
      if mode > max {
        return true;
      }
      if mode == OFF {
        ok := Rewrite(i, regVal.At(i) & !0x10);
      } else {
        ok := Rewrite(i, regVal.At(i) | 0x10);
      }
    }

    method BlinkSet(mode: Mode, blinkMask: bv8) returns (ghost ok: bool)
      modifies this`regVal, cpld
      ensures Now() == old(Now()).After(0, BlinkReg(old(regVal).At(0), blinkMask, IsBlinking(mode)), ok)
    {
      if IsBlinking(mode) {
        ok := Rewrite(0, regVal.At(0) | blinkMask);
      } else {
        ok := Rewrite(0, regVal.At(0) & !blinkMask);
      }
    }

    method AutoSet(max: Mode, mode: Mode, blinkMask: bv8) returns (ghost ok: bool)
      modifies this`regVal, cpld
      ensures mode < 9 || mode > max ==> Now() == old(Now())
      ensures 9 <= mode <= max ==>
                Now() == old(Now()).After(0, BlinkReg(old(regVal).At(0), blinkMask, IsBlinking(mode)), ok)
    {
      if mode < AUTO || mode > max {
        return true;
      }
      ok := BlinkSet(mode, blinkMask);
    }

    /** The blink bit first and then the colour, whether or not the first write succeeds. */
    method NormalSet(max: Mode, mode: Mode, blinkMask: bv8, i: nat, regMask: bv8, shift: bv8)
      returns (ghost oks: (bool, bool))
      requires 0 < i < NUM_REGS && shift <= 6
      modifies this`regVal, cpld
      ensures mode > max ==> Now() == old(Now())
      ensures mode <= max ==>
                Now() == old(Now()).After(0, BlinkReg(old(regVal).At(0), blinkMask, IsBlinking(mode)), oks.0)
                                   .After(i, ColourReg(old(regVal).At(i), regMask, shift, mode), oks.1)
    {
      hide ModeToRegVal, IsBlinking, BlinkReg;
      if mode > max {
        return (true, true);
      }
      ghost var blinkOk := BlinkSet(mode, blinkMask);
      ghost var colourOk := Rewrite(i, (regVal.At(i) & !regMask) | (ModeToRegVal(mode) << shift));
      oks := (blinkOk, colourOk);
    }

    /** A set writes the blink register and the LED's own, or only the latter, or is ignored altogether. */
    ghost predicate WasSet(led: Led, mode: Mode, s: State, oks: (bool, bool))
      reads this, cpld
    {
      var e := Encode(led, s.cache, mode);
      var i := Place(led);
      Now() == if !Accepts(led, mode) then s
               else if IsNormal(led) then s.After(0, e.At(0), oks.0).After(i, e.At(i), oks.1)
               else s.After(i, e.At(i), oks.0)
    }

    /** The cache takes the new mode in any case, and the hardware if no write fails. */
    lemma SetEffect(led: Led, mode: Mode, s: State, oks: (bool, bool))
      requires WasSet(led, mode, s, oks)
      ensures cpld.writeFaults >= s.faults
      ensures regVal == if Accepts(led, mode) then Encode(led, s.cache, mode) else s.cache
      ensures cpld.writeFaults == s.faults ==>
                cpld.regs == if Accepts(led, mode) then HardwareAfter(led, s.cache, s.regs, mode) else s.regs
    {
      hide BlinkReg, ColourReg, SegmentReg, PointReg, IsBlinking, Accepts;
    }

    /** A set changes the cache, and unless a write fails the hardware, or is ignored altogether. */
    method Set(led: Led, mode: Mode) returns (ghost oks: (bool, bool))
      modifies this`regVal, cpld
      ensures WasSet(led, mode, old(Now()), oks)
    {
      hide PointReg, BlinkReg, ColourReg, IsBlinking;
      if IsNormal(led) {
        oks := SetNormal(led, mode);
        return;
      }
      ghost var ok;
      match led {
        case Psu1 => ok := AutoSet(AUTO_BLINKING, mode, 0x20);
        case Psu2 => ok := AutoSet(AUTO_BLINKING, mode, 0x10);
        case Fan => ok := AutoSet(AUTO_BLINKING, mode, 0x02);
        case Tens => ok := SegmentSet(SEVEN_SEGMENT_MAX, mode, 2);
        case TensPoint => ok := PointSet(GREEN, mode, 2);
        case Digits => ok := SegmentSet(SEVEN_SEGMENT_MAX, mode, 1);
        case DigitsPoint => ok := PointSet(GREEN, mode, 1);
      }
      oks := (ok, true);
    }

    method SetNormal(led: Led, mode: Mode) returns (ghost oks: (bool, bool))
      requires IsNormal(led)
      modifies this`regVal, cpld
      ensures WasSet(led, mode, old(Now()), oks)
    {
      hide SegmentReg, PointReg, BlinkReg, ColourReg, IsBlinking;
      match led
      case Sys => oks := NormalSet(AMBER_BLINK, mode, 0x80, 3, 0xC0, 6);
      case Pri => oks := NormalSet(AMBER_BLINK, mode, 0x40, 3, 0x30, 4);
      case Stk1 => oks := NormalSet(AMBER_BLINK, mode, 0x08, 4, 0xC0, 6);
      case Stk2 => oks := NormalSet(AMBER_BLINK, mode, 0x04, 4, 0x30, 4);
      case Poe => oks := NormalSet(AMBER_BLINK, mode, 0x01, 4, 0x03, 0);
      case Alarm => oks := NormalSet(AMBER_BLINK, mode, 0x01, 4, 0x03, 0);
    }

    method NormalGet(i: nat, blinkMask: bv8, shift: bv8, now: nat) returns (mode: Mode, ghost got: nat)
      requires word > 0 && i < NUM_REGS && shift <= 6
      modifies this, cpld`log
      ensures mode == NormalMode(regVal.At(i), regVal.At(0), blinkMask, shift)
      ensures Updated(old(Now()), old(Due(now)), now, got)
    {
      got := Update(now);
      mode := RegValToMode(regVal.At(i) >> shift);
      if mode == OFF {
        return;
      }
      if regVal.At(0) & blinkMask != 0 {
        mode := mode + 1;
      }
    }

    method AutoGet(blinkMask: bv8, now: nat) returns (mode: Mode, ghost got: nat)
      requires word > 0
      modifies this, cpld`log
      ensures mode == AutoMode(regVal.At(0), blinkMask)
      ensures Updated(old(Now()), old(Due(now)), now, got)
    {
      got := Update(now);
      mode := if regVal.At(0) & blinkMask != 0 then AUTO_BLINKING else AUTO;
    }

    method SegmentGet(i: nat, now: nat) returns (mode: Mode, ghost got: nat)
      requires word > 0 && i < NUM_REGS
      modifies this, cpld`log
      ensures mode == regVal.At(i) & 0x0F
      ensures Updated(old(Now()), old(Due(now)), now, got)
    {
      got := Update(now);
      mode := regVal.At(i) & 0x0F;
    }

    method PointGet(i: nat, now: nat) returns (mode: Mode, ghost got: nat)
      requires word > 0 && i < NUM_REGS
      modifies this, cpld`log
      ensures mode == PointMode(regVal.At(i))
      ensures Updated(old(Now()), old(Due(now)), now, got)
    {
      got := Update(now);
      mode := if regVal.At(i) & 0x10 != 0 then GREEN else OFF;
    }

    /**
     What an update leaves: nothing changed if it was not due; otherwise the registers it got, and a valid
     cache exactly if it got all five.
     */
    ghost predicate Updated(s: State, due: bool, now: nat, got: nat)
      reads this, cpld
    {
      && cpld.regs == s.regs && cpld.writeFaults == s.faults
      && if !due then got == 0 && s.valid && Now() == s
         else
           && got <= 5 && cpld.log == s.log + Fetches(got) && (valid <==> got == 5)
           && lastUpdated == (if got == 5 then now else s.lastUpdated)
           && (s.cache == s.regs || got == 5 ==> Coherent())
           && forall i :: 0 <= i < 5 ==> regVal.At(i) == if i < got then cpld.regs.At(i) else s.cache.At(i)
    }

    /** A get that is due and reads all five registers shows the hardware; so does any get on a coherent cache. */
    method Get(led: Led, now: nat) returns (mode: Mode, ghost got: nat)
      requires word > 0
      modifies this, cpld`log
      ensures mode == Decode(led, regVal)
      ensures Updated(old(Now()), old(Due(now)), now, got)
      ensures got == 5 || old(Coherent()) ==> Coherent() && mode == Decode(led, cpld.regs)
      ensures cpld.regs == old(cpld.regs) && cpld.writeFaults == old(cpld.writeFaults)
      ensures !old(Due(now)) ==> mode == Decode(led, old(regVal)) && cpld.log == old(cpld.log)
    {
      hide NormalMode, AutoMode, PointMode, Fetches;
      match led
      case Sys => mode, got := NormalGet(3, 0x80, 6, now);
      case Pri => mode, got := NormalGet(3, 0x40, 4, now);
      case Psu1 => mode, got := AutoGet(0x20, now);
      case Psu2 => mode, got := AutoGet(0x10, now);
      case Stk1 => mode, got := NormalGet(4, 0x08, 6, now);
      case Stk2 => mode, got := NormalGet(4, 0x04, 4, now);
      case Tens => mode, got := SegmentGet(2, now);
      case TensPoint => mode, got := PointGet(2, now);
      case Digits => mode, got := SegmentGet(1, now);
      case DigitsPoint => mode, got := PointGet(1, now);
      case Fan => mode, got := AutoGet(0x02, now);
      case Poe => mode, got := NormalGet(4, 0x01, 0, now);
      case Alarm => mode, got := NormalGet(4, 0x01, 0, now);
    }

    /**
     Any run of sets and gets on a product's LEDs, on a coherent cache and with successful writes,
     answers as a map that holds one mode per LED.
     */
    method Session(pid: Product, ops: seq<Op>) returns (answers: seq<Mode>)
      requires word > 0 && Coherent() && forall op :: op in ops ==> op.led in LedMap(pid)
      modifies this, cpld
      ensures cpld.writeFaults == old(cpld.writeFaults) ==>
                && Coherent()
                && answers == MapAnswers(Modes(LedMap(pid), old(cpld.regs)), ops)
                && Modes(LedMap(pid), cpld.regs) == MapRun(Modes(LedMap(pid), old(cpld.regs)), ops)
    {
      ghost var leds := LedMap(pid);
      ghost var m0 := Modes(leds, cpld.regs);
      answers := [];
      for k := 0 to |ops|
        invariant cpld.writeFaults >= old(cpld.writeFaults)
        invariant cpld.writeFaults == old(cpld.writeFaults) ==>
                    && Coherent()
                    && answers == MapAnswers(m0, ops[..k])
                    && Modes(leds, cpld.regs) == MapRun(m0, ops[..k])
      {
        hide LedMap, Modes, MapStep;
        assert ops[..k + 1][..k] == ops[..k] && ops[k] in ops;
        var answer := Serve(pid, ops[k]);
        answers := answers + answer;
      }
      assert ops[..|ops|] == ops;
    }

    /** On a coherent cache one request is one step of the map. */
    method Serve(pid: Product, op: Op) returns (answer: seq<Mode>)
      requires word > 0 && op.led in LedMap(pid)
      modifies this, cpld
      ensures cpld.writeFaults >= old(cpld.writeFaults)
      ensures old(Coherent()) && cpld.writeFaults == old(cpld.writeFaults) ==>
                && Coherent()
                && op.led in Modes(LedMap(pid), old(cpld.regs))
                && answer == (if op.GetOp? then [Modes(LedMap(pid), old(cpld.regs))[op.led]] else [])
                && Modes(LedMap(pid), cpld.regs) == MapStep(Modes(LedMap(pid), old(cpld.regs)), op)
    {
      hide Encode, Decode, LedMap, HardwareAfter, LedController.WasSet, LedController.Updated, Accepts;
      answer := [];
      match op
      case SetOp(led, mode) =>
        ghost var before := Now();
        ghost var oks := Set(led, mode);
        SetEffect(led, mode, before, oks);
        if Accepts(led, mode) {
          HardwareAfterCoherent(led, before.cache, mode);
          SetUpdatesMap(pid, led, before.cache, mode);
        }
      case GetOp(led, now) =>
        ghost var got;
        var mode;
        mode, got := Get(led, now);
        answer := [mode];
    }
  }

  lemma SameRegs(a: Regs, b: Regs)
    requires forall k :: 0 <= k < 5 ==> a.At(k) == b.At(k)
    ensures a == b
  {
    assert a.At(0) == b.At(0) && a.At(1) == b.At(1) && a.At(2) == b.At(2) && a.At(3) == b.At(3) && a.At(4) == b.At(4);
  }

  // ----- The map the LEDs stand for ----------------------------------------------------------

  datatype Op = SetOp(led: Led, mode: Mode) | GetOp(led: Led, now: nat)

  function Modes(leds: set<Led>, regs: Regs): map<Led, Mode> {
    map led | led in leds :: Decode(led, regs)
  }

  function MapStep(m: map<Led, Mode>, op: Op): map<Led, Mode> {
    if op.SetOp? && Accepts(op.led, op.mode) then m[op.led := op.mode] else m
  }

  function MapRun(m: map<Led, Mode>, ops: seq<Op>): map<Led, Mode> {
    if ops == [] then m else MapStep(MapRun(m, ops[..|ops| - 1]), ops[|ops| - 1])
  }

  function MapAnswers(m: map<Led, Mode>, ops: seq<Op>): seq<Mode> {
    if ops == [] then []
    else
      var k := |ops| - 1;
      var now := MapRun(m, ops[..k]);
      MapAnswers(m, ops[..k]) + if ops[k].GetOp? && ops[k].led in now then [now[ops[k].led]] else []
  }

  lemma HardwareAfterCoherent(led: Led, regs: Regs, mode: Mode)
    ensures HardwareAfter(led, regs, regs, mode) == Encode(led, regs, mode)
  {
  }

  lemma SetUpdatesOne(pid: Product, led: Led, other: Led, regs: Regs, mode: Mode)
    requires Accepts(led, mode) && led in LedMap(pid) && other in LedMap(pid)
    ensures Decode(other, Encode(led, regs, mode)) == if other == led then mode else Decode(other, regs)
  {
    hide Encode, Decode, LedMap, Accepts;
    if other == led {
      GetAfterSet(led, regs, mode);
    } else {
      ProductLedsAreSeparate(pid, led, other);
      GetAfterOtherSet(led, other, regs, mode);
    }
  }

  /** A set on a product's LED updates that LED in the map and no other. */
  lemma SetUpdatesMap(pid: Product, led: Led, regs: Regs, mode: Mode)
    requires Accepts(led, mode) && led in LedMap(pid)
    ensures Modes(LedMap(pid), Encode(led, regs, mode)) == Modes(LedMap(pid), regs)[led := mode]
  {
    hide Encode, Decode, LedMap, Accepts;
    forall other | other in LedMap(pid)
      ensures Decode(other, Encode(led, regs, mode)) == if other == led then mode else Decode(other, regs)
    {
      SetUpdatesOne(pid, led, other, regs, mode);
    }
  }
}
