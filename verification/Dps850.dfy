/**
 The DPS850 power supply driver: a copy of the supply's registers that is refreshed as a whole, through
 reads that are tried ten times.
 */
module Dps850 {
  import opened Basics
  import opened Modular
  import opened Linear11

  datatype Kind = ByteData | WordData | BlockData

  datatype Field = VIn | VOut | IIn | IOut | POut | PIn | Temp1 | Temp2 | Temp3 | FanSpeed

  /** The PMBus command that reads the quantity. */
  function Command(f: Field): byte {
    match f
    case VIn => 0x88
    case IIn => 0x89
    case VOut => 0x8B
    case IOut => 0x8C
    case Temp1 => 0x8D
    case Temp2 => 0x8E
    case Temp3 => 0x8F
    case FanSpeed => 0x90
    case POut => 0x96
    case PIn => 0x97
  }

  const VOUT_MODE: byte := 0x20
  const MFR_MODEL: byte := 0x9a
  const MFR_SERIAL: byte := 0x9e

  /** The words of a refresh, in the order they are read. */
  const REGS_WORD: seq<(byte, Field)> := [
    (0x88, VIn), (0x8b, VOut), (0x89, IIn), (0x8c, IOut), (0x96, POut),
    (0x97, PIn), (0x8d, Temp1), (0x8e, Temp2), (0x8f, Temp3), (0x90, FanSpeed)]

  /** The place of a field in that order. */
  function Place(f: Field): (k: nat)
    ensures k < 10
  {
    match f
    case VIn => 0
    case VOut => 1
    case IIn => 2
    case IOut => 3
    case POut => 4
    case PIn => 5
    case Temp1 => 6
    case Temp2 => 7
    case Temp3 => 8
    case FanSpeed => 9
  }

  /** Every field is read once, by the command of its quantity. */
  lemma TableIsComplete(f: Field)
    ensures REGS_WORD[Place(f)] == (Command(f), f)
  {
  }

  // ----- The bus -----------------------------------------------------------------------------

  datatype Attempt = Attempt(reg: byte, status: int)

  /** The reads that succeeded, in order. */
  function Successes(log: seq<Attempt>): seq<Attempt> {
    if log == [] then []
    else
      var last := log[|log| - 1];
      Successes(log[..|log| - 1]) + if last.status >= 0 then [last] else []
  }

  lemma SuccessesSnoc(log: seq<Attempt>, a: Attempt)
    ensures Successes(log + [a]) == Successes(log) + if a.status >= 0 then [a] else []
  {
  }

  /** A supply whose readings change as they like, on a bus that may fail. */
  class Psu {
    ghost var log: seq<Attempt>

    method Read(kind: Kind, reg: byte) returns (status: int)
      modifies this
      ensures log == old(log) + [Attempt(reg, status)]
      ensures status < if kind == WordData then 0x10000 else 0x100
    {
      status :| -4096 < status < if kind == WordData then 0x10000 else 0x100;
      log := log + [Attempt(reg, status)];
    }
  }

  const I2C_RW_RETRY_COUNT := 10

  /** Attempts at one register: failures up to the last, which is a success or the tenth. */
  predicate Tries(tries: seq<Attempt>, reg: byte, status: int) {
    && 1 <= |tries| <= I2C_RW_RETRY_COUNT
    && tries[|tries| - 1].status == status
    && (status < 0 ==> |tries| == I2C_RW_RETRY_COUNT)
    && (forall k :: 0 <= k < |tries| ==> tries[k].reg == reg)
    && (forall k :: 0 <= k < |tries| - 1 ==> tries[k].status < 0)
  }

  lemma {:induction false} SuccessesOfTries(log: seq<Attempt>, tries: seq<Attempt>)
    requires forall k :: 0 <= k < |tries| ==> tries[k].status < 0
    ensures Successes(log + tries) == Successes(log)
  {
    hide Successes;
    if tries == [] {
      assert log + tries == log;
    } else {
      var n := |tries| - 1;
      SuccessesOfTries(log, tries[..n]);
      SuccessesSnoc(log + tries[..n], tries[n]);
      assert log + tries == log + tries[..n] + [tries[n]];
    }
  }

  lemma SuccessOfTries(log: seq<Attempt>, tries: seq<Attempt>, reg: byte, status: int)
    requires Tries(tries, reg, status)
    ensures Successes(log + tries) == Successes(log) + if status >= 0 then [Attempt(reg, status)] else []
  {
    var n := |tries| - 1;
    SuccessesOfTries(log, tries[..n]);
    SuccessesSnoc(log + tries[..n], tries[n]);
    assert log + tries == log + tries[..n] + [tries[n]];
    assert tries[n] == Attempt(reg, status);
  }

  predicate Tried(before: seq<Attempt>, after: seq<Attempt>, reg: byte, status: int) {
    before <= after && Tries(after[|before|..], reg, status)
  }

  // ----- A refresh ---------------------------------------------------------------------------

  /** The reads from `at` on are one refresh up to its `n`-th word, and gave these fields. */
  ghost predicate Refreshed(s: seq<Attempt>, at: nat, n: nat, voutMode: int, value: map<Field, u16>)
    requires n <= 10
  {
    && at + 1 + n <= |s| && s[at] == Attempt(VOUT_MODE, voutMode)
    && forall f :: Place(f) < n ==> f in value && s[at + 1 + Place(f)] == Attempt(Command(f), value[f])
  }

  lemma RefreshedMode(s: seq<Attempt>, voutMode: int, value: map<Field, u16>)
    ensures Refreshed(s + [Attempt(VOUT_MODE, voutMode)], |s|, 0, voutMode, value)
  {
  }

  lemma RefreshedWord(s: seq<Attempt>, at: nat, n: nat, voutMode: int, value: map<Field, u16>, w: u16)
    requires n < 10 && |s| == at + 1 + n && Refreshed(s, at, n, voutMode, value)
    ensures Refreshed(s + [Attempt(REGS_WORD[n].0, w)], at, n + 1, voutMode, value[REGS_WORD[n].1 := w])
  {
  }

  lemma RefreshedLater(s: seq<Attempt>, later: seq<Attempt>, at: nat, n: nat, voutMode: int, value: map<Field, u16>)
    requires n <= 10 && s <= later && Refreshed(s, at, n, voutMode, value)
    ensures Refreshed(later, at, n, voutMode, value)
  {
  }

  /** The reads from `at` on are all those of one refresh, in range for their registers. */
  ghost predicate WholeRefresh(s: seq<Attempt>, at: nat) {
    && at + 11 <= |s| && s[at].reg == VOUT_MODE && 0 <= s[at].status < 0x100
    && forall f :: s[at + 1 + Place(f)].reg == Command(f) && 0 <= s[at + 1 + Place(f)].status < 0x10000
  }

  /** The number to show for a field after a refresh that starts at `at`. */
  ghost function Shown(s: seq<Attempt>, at: nat, f: Field): int
    requires WholeRefresh(s, at)
  {
    Display(f, s[at].status, s[at + 1 + Place(f)].status)
  }

  /** The output voltage takes its exponent from the mode; the fan speed is not in thousandths. */
  function Display(f: Field, voutMode: byte, w: u16): int {
    if f == VOut then Vout(voutMode, w) else Linear(w, if f == FanSpeed then 1 else 1000)
  }

  /**
   What is shown is the truncated meaning of the word, in thousandths but for the fan speed, exactly when 32 bits
   hold the product; the fan speed always fits.
   */
  lemma DisplayIsExactIff(f: Field, voutMode: byte, w: u16, e: int)
    requires IsSigned(e, voutMode, 16)
    ensures f == FanSpeed ==> IsTruncation(Display(f, voutMode, w), Meaning(w))
    ensures f == VOut ==> (IsTruncation(Display(f, voutMode, w), 1000.0 * (w as real * Scale(e))) <==> Fits(w, e, 1000))
    ensures f != FanSpeed && f != VOut ==>
              (IsTruncation(Display(f, voutMode, w), 1000.0 * Meaning(w)) <==> Fits(Mantissa(w), Exponent(w), 1000))
  {
    hide Linear, Vout, IsTruncation, Fits, Scale, Meaning;
    if f == FanSpeed {
      LinearIsExactUpToEleven(w, 1);
    } else if f == VOut {
      VoutIsExactIff(voutMode, w, e);
    } else {
      LinearIsExactIff(w, 1000);
    }
  }

  ghost predicate ShownBy(s: seq<Attempt>, at: nat, f: Field, v: int) {
    WholeRefresh(s, at) && v == Shown(s, at, f)
  }

  lemma ShownByRefreshed(s: seq<Attempt>, at: nat, f: Field, voutMode: byte, value: map<Field, u16>)
    requires Refreshed(s, at, 10, voutMode, value) && f in value
    ensures ShownBy(s, at, f, Display(f, voutMode, value[f]))
  {
  }

  lemma ShownLater(s: seq<Attempt>, later: seq<Attempt>, at: nat, f: Field, v: int)
    requires s <= later && ShownBy(s, at, f, v)
    ensures ShownBy(later, at, f, v)
  {
    hide Place, Command, Display;
  }

  const ZEROED: map<Field, u16> :=
    map[VIn := 0, VOut := 0, IIn := 0, IOut := 0, POut := 0,
        PIn := 0, Temp1 := 0, Temp2 := 0, Temp3 := 0, FanSpeed := 0]

  lemma ZeroedIsTotal()
    ensures forall f :: f in ZEROED
  {
    forall f: Field ensures f in ZEROED {
      TableIsComplete(f);
    }
  }

  /** What is not due for its age is not older than that, unless the clock went half a turn. */
  lemma NotDueIsRecent(word: nat, age: nat, start: nat, last: nat)
    requires word > 0 && !TimeAfter(word, start % word, (last % word + age) % word)
    requires last <= start < last + word / 2 && age < word / 2
    ensures start <= last + age
  {
    hide TimeAfter;
    ResidueOfSum(last, age, word);
    TimeAfterMeaning(word, start, last + age);
  }

  /** The model and the serial number, each read for its length and then whole. */
  predicate StringsFollow(s: seq<Attempt>, at: nat) {
    at + 4 <= |s| && s[at].reg == s[at + 1].reg == 0x9a && s[at + 2].reg == s[at + 3].reg == 0x9e
  }

  // ----- The driver --------------------------------------------------------------------------

  class Driver {
    const psu: Psu
    /** The modulus of the clock, and its ticks in a second. */
    const word: nat
    const hz: nat
    var valid: bool
    var lastUpdated: nat
    var voutMode: byte
    var value: map<Field, u16>
    /** Where the last refresh starts among the successful reads, and when it ended. */
    ghost var refreshed: nat
    ghost var refreshTime: nat

    constructor (psu: Psu, word: nat, hz: nat)
      requires word > 0
      ensures Coherent() && !valid && this.psu == psu && this.word == word && this.hz == hz
    {
      this.psu, this.word, this.hz := psu, word, hz;
      valid, lastUpdated, voutMode, refreshed, refreshTime := false, 0, 0, 0, 0;
      value := ZEROED;
      ZeroedIsTotal();
    }

    /** A valid copy is the outcome of one whole refresh, which ended at the time on record. */
    ghost predicate Coherent()
      reads this, psu
    {
      && word > 0 && refreshed <= |Successes(psu.log)|
      && (forall f :: f in value)
      && (valid ==>
            && Refreshed(Successes(psu.log), refreshed, 10, voutMode, value)
            && lastUpdated == refreshTime % word)
    }

    /** Reads a register, at most ten times. */
    method Read(kind: Kind, reg: byte) returns (status: int)
      modifies psu
      ensures Tried(old(psu.log), psu.log, reg, status)
      ensures old(psu.log) < psu.log && psu.log[|old(psu.log)|].reg == reg
      ensures Successes(psu.log) == Successes(old(psu.log)) + if status >= 0 then [Attempt(reg, status)] else []
      ensures status < if kind == WordData then 0x10000 else 0x100
    {
      hide Successes;
      status := 0;
      var retry := I2C_RW_RETRY_COUNT;
      ghost var before := psu.log;
      while retry > 0
        invariant 0 <= retry <= I2C_RW_RETRY_COUNT
        invariant before <= psu.log && |psu.log| == |before| + I2C_RW_RETRY_COUNT - retry
        invariant forall k :: |before| <= k < |psu.log| ==> psu.log[k].reg == reg && psu.log[k].status < 0
        invariant retry < I2C_RW_RETRY_COUNT ==> status < 0 && psu.log[|psu.log| - 1].status == status
      {
        status := psu.Read(kind, reg);
        if status < 0 {
          retry := retry - 1;
          continue;
        }
        break;
      }
      assert psu.log == before + psu.log[|before|..];
      SuccessOfTries(before, psu.log[|before|..], reg, status);
    }

    /** The last read failed ten times over. */
    ghost predicate GaveUp(before: seq<Attempt>)
      reads psu
    {
      exists reg, status, k :: |before| <= k <= |psu.log| && status < 0 && Tries(psu.log[k..], reg, status)
    }

    /** The mode and the words, and which of the reads gave them. */
    method ReadWords() returns (ok: bool)
      modifies this`voutMode, this`value, psu
      ensures old(psu.log) < psu.log && psu.log[|old(psu.log)|].reg == 0x20
      ensures var s0, s := Successes(old(psu.log)), Successes(psu.log);
              && s0 <= s && old(value).Keys <= value.Keys && (ok ==> |s| == |s0| + 11)
              && if ok then Refreshed(s, |s0|, 10, voutMode, value) else GaveUp(old(psu.log))
    {
      hide Successes, Refreshed, Tries;
      ghost var log0 := psu.log;
      ghost var s0 := Successes(log0);
      var status := Read(ByteData, VOUT_MODE);
      if status < 0 {
        return false;
      }
      voutMode := status;
      RefreshedMode(s0, voutMode, value);
      for i := 0 to |REGS_WORD|
        invariant log0 < psu.log && psu.log[|log0|].reg == VOUT_MODE
        invariant old(value).Keys <= value.Keys
        invariant s0 <= Successes(psu.log) && |Successes(psu.log)| == |s0| + 1 + i
        invariant Refreshed(Successes(psu.log), |s0|, i, voutMode, value)
      {
        ghost var before := psu.log;
        status := Read(WordData, REGS_WORD[i].0);
        if status < 0 {
          assert Tries(psu.log[|before|..], REGS_WORD[i].0, status);
          return false;
        }
        RefreshedWord(Successes(before), |s0|, i, voutMode, value, status);
        value := value[REGS_WORD[i].1 := status];
      }
      ok := true;
    }

    /** The length of a string, and the string. */
    method ReadString(command: byte) returns (ok: bool)
      modifies psu
      ensures old(psu.log) <= psu.log && Successes(old(psu.log)) <= Successes(psu.log)
      ensures ok ==> exists length, last ::
                Successes(psu.log) == Successes(old(psu.log)) + [Attempt(command, length), Attempt(command, last)]
      ensures !ok ==> GaveUp(old(psu.log))
    {
      hide Successes, Tries;
      ghost var log0 := psu.log;
      var status := Read(BlockData, command);
      if status < 0 {
        return false;
      }
      ghost var log1 := psu.log;
      status := Read(BlockData, command);
      ok := status >= 0;
      assert !ok ==> Tries(psu.log[|log1|..], command, status);
    }

    predicate Due(now: nat)
      reads this
    {
      word == 0 || !valid || TimeAfter(word, now, (lastUpdated + hz + hz / 2) % word)
    }

    /** A refresh when one is due, at the first of the two times, which ends at the second. */
    method Update(start: nat, end: nat)
      requires Coherent()
      modifies this`valid, this`lastUpdated, this`voutMode, this`value, this`refreshed, this`refreshTime, psu
      ensures Coherent() && old(psu.log) <= psu.log && Successes(old(psu.log)) <= Successes(psu.log)
      ensures refreshed >= old(refreshed)
      ensures old(valid && !TimeAfter(word, start % word, (lastUpdated + hz + hz / 2) % word)) ==>
                valid && unchanged(this) && unchanged(psu)
      ensures old(!valid || TimeAfter(word, start % word, (lastUpdated + hz + hz / 2) % word)) ==>
                && old(psu.log) < psu.log && psu.log[|old(psu.log)|].reg == 0x20
                && (valid ==>
                      && refreshed == |Successes(old(psu.log))| && refreshTime == end
                      && |Successes(psu.log)| == refreshed + 15 && StringsFollow(Successes(psu.log), refreshed + 11))
      ensures !valid ==> GaveUp(old(psu.log))
    {
      hide Successes, Refreshed, Tries;
      if Due(start % word) {
        ghost var log0 := psu.log;
        valid := false;
        var ok := ReadWords();
        if !ok {
          return;
        }
        ghost var s := Successes(psu.log);
        ok := ReadString(MFR_MODEL);
        if ok {
          ok := ReadString(MFR_SERIAL);
        }
        if !ok {
          return;
        }
        RefreshedLater(s, Successes(psu.log), |Successes(log0)|, 10, voutMode, value);
        refreshed, refreshTime := |Successes(log0)|, end;
        lastUpdated, valid := end % word, true;
      }
    }

    /**
     The number shown for a field comes from one whole refresh, made now or, while the clock has not gone half
     a turn further, within the last one and a half seconds. Nothing is shown only if a read failed ten times.
     */
    method Show(f: Field, start: nat, end: nat) returns (shown: Option<int>)
      requires Coherent()
      modifies this`valid, this`lastUpdated, this`voutMode, this`value, this`refreshed, this`refreshTime, psu
      ensures Coherent() && old(psu.log) <= psu.log && Successes(old(psu.log)) <= Successes(psu.log)
      ensures refreshed >= old(refreshed)
      ensures psu.log == old(psu.log) <==>
                old(valid && !TimeAfter(word, start % word, (lastUpdated + hz + hz / 2) % word))
      ensures shown.Some? ==> ShownBy(Successes(psu.log), refreshed, f, shown.value) && Recent(start, end)
      ensures shown.None? ==> GaveUp(old(psu.log))
    {
      hide Successes, Refreshed, ShownBy, Display, GaveUp, TimeAfter;
      if !Due(start % word) && refreshTime <= start < refreshTime + word / 2 && hz + hz / 2 < word / 2 {
        NotDueIsRecent(word, hz + hz / 2, start, refreshTime);
      }
      Update(start, end);
      if !valid {
        return None;
      }
      ShownByRefreshed(Successes(psu.log), refreshed, f, voutMode, value);
      var w := value[f];
      shown := Some(Display(f, voutMode, w));
    }

    ghost predicate Recent(start: nat, end: nat)
      reads this
    {
      || refreshTime == end
      || (refreshTime <= start < refreshTime + word / 2 && hz + hz / 2 < word / 2 ==>
            start <= refreshTime + hz + hz / 2)
    }

    /** Over any run, every number shown is that of one whole refresh, and never of an earlier one than before. */
    method Session(ops: seq<Op>) returns (shown: seq<Option<int>>, ghost at: seq<nat>)
      requires Coherent()
      modifies this, psu
      ensures Coherent() && |shown| == |at| == |ops|
      ensures forall k :: 0 <= k < |ops| && shown[k].Some? ==>
                ShownBy(Successes(psu.log), at[k], ops[k].field, shown[k].value)
      ensures forall j, k :: 0 <= j < k < |ops| ==> at[j] <= at[k]
    {
      hide Successes, ShownBy, Recent, GaveUp, Refreshed;
      shown, at := [], [];
      for i := 0 to |ops|
        invariant Coherent() && |shown| == |at| == i
        invariant forall k :: 0 <= k < i && shown[k].Some? ==>
                    ShownBy(Successes(psu.log), at[k], ops[k].field, shown[k].value)
        invariant forall j, k :: 0 <= j < k < i ==> at[j] <= at[k]
        invariant forall k :: 0 <= k < i ==> at[k] <= refreshed
      {
        ghost var s := Successes(psu.log);
        var v := Show(ops[i].field, ops[i].start, ops[i].end);
        forall k | 0 <= k < i && shown[k].Some?
          ensures ShownBy(Successes(psu.log), at[k], ops[k].field, shown[k].value)
        {
          ShownLater(s, Successes(psu.log), at[k], ops[k].field, shown[k].value);
        }
        shown, at := shown + [v], at + [refreshed];
      }
    }
  }

  /** A read of one of the supply's files, from when it starts to when it ends. */
  datatype Op = Op(field: Field, start: nat, end: nat)
}
