/**
 The motherboard EEPROM driver: 512 bytes cached in eight slices, each with a valid bit and the
 time of its last refresh, over a device that is read through an auto-incrementing pointer.
 */
module EepromCache {
  import opened Basics
  import opened Bits
  import opened Modular

  const EEPROM_SIZE := 512
  const SLICE_SIZE := 64
  const SLICE_NUM := 8

  // ----- Time --------------------------------------------------------------------------------

  predicate Expired(word: nat, hz: nat, now: nat, last: nat)
    requires word > 0
  {
    TimeAfter(word, now, (last + 300 * hz) % word)
  }

  /** The times at which a zeroed timestamp counts as expired. */
  predicate InRange(word: nat, hz: nat, now: nat)
    requires word > 0
  {
    Expired(word, hz, now, 0)
  }

  /** They are the half-range after 300 seconds. */
  lemma InRangeIsHalfRange(word: nat, hz: nat, now: nat)
    requires word % 2 == 0 && now < word && 300 * hz + word / 2 < word
    ensures InRange(word, hz, now) <==> 300 * hz < now <= 300 * hz + word / 2
  {
    WrapOnce(300 * hz, word);
    WrapOnce(300 * hz - now, word);
  }

  /** A slice is refreshed again when more than 300 seconds passed, as long as the wrapping clock can tell. */
  lemma ExpiredMeaning(word: nat, hz: nat, now: nat, last: nat)
    requires word > 0 && -(word / 2) < last + 300 * hz - now < word / 2
    ensures Expired(word, hz, now % word, last % word) <==> now - last > 300 * hz
  {
    ResidueOfSum(last, 300 * hz, word);
    TimeAfterMeaning(word, now, last + 300 * hz);
  }

  /** An address survives being split into the two bytes of a command. */
  lemma AddressSplit(addr: nat, v: byte)
    requires addr < EEPROM_SIZE
    ensures (addr / 256) % 256 == addr / 256
    ensures (256 * (addr / 256) + addr % 256) % EEPROM_SIZE == addr
    ensures (addr % 256 + 256 * v) % 256 == addr % 256 && (addr % 256 + 256 * v) / 256 == v
    ensures addr % 256 + 256 * v < 0x10000
  {
  }

  // ----- The device --------------------------------------------------------------------------

  /** One operation on the device, as it went. */
  datatype Op = Address(at: nat, ok: bool) | Fetch(ok: bool) | Store(at: nat, v: byte, ok: bool)

  /** The operations that get so many bytes of a slice after its address was set. */
  function Fetches(got: nat): (ops: seq<Op>)
    ensures forall op :: op in ops ==> op.Fetch?
  {
    Fetched(got) + if got < SLICE_SIZE then [Fetch(false)] else []
  }

  function Fetched(n: nat): (ops: seq<Op>)
    ensures |ops| == n && forall op :: op in ops ==> op == Fetch(true)
  {
    seq(n, _ => Fetch(true))
  }

  lemma FetchedSnoc(n: nat)
    ensures Fetched(n + 1) == Fetched(n) + [Fetch(true)]
  {
  }

  /** Every operation may fail, and then does nothing; `faults` counts the failures. */
  class Eeprom {
    var mem: seq<byte>
    var pointer: nat
    ghost var faults: nat
    /** All operations so far, in order. */
    ghost var log: seq<Op>

    constructor (mem: seq<byte>)
      requires |mem| == EEPROM_SIZE
      ensures Valid() && this.mem == mem && faults == 0
    {
      this.mem, pointer, faults, log := mem, 0, 0, [];
    }

    ghost predicate Valid()
      reads this
    {
      |mem| == EEPROM_SIZE && pointer < EEPROM_SIZE
    }

    /** A byte write whose command and data bytes are the two halves of an address. */
    method SetAddress(high: byte, low: byte) returns (ret: int)
      requires Valid()
      modifies this`pointer, this`faults, this`log
      ensures Valid() && faults >= old(faults)
      ensures faults == old(faults) <==> ret >= 0
      ensures log == old(log) + [Address((256 * high + low) % EEPROM_SIZE, ret >= 0)]
      ensures pointer == if ret >= 0 then (256 * high + low) % EEPROM_SIZE else old(pointer)
    {
      ret :| -4096 < ret <= 0;
      log := log + [Address((256 * high + low) % EEPROM_SIZE, ret >= 0)];
      if ret >= 0 {
        pointer := (256 * high + low) % EEPROM_SIZE;
      } else {
        faults := faults + 1;
      }
    }

    /** The byte under the pointer, which moves on. */
    method ReadByte() returns (res: int)
      requires Valid()
      modifies this`pointer, this`faults, this`log
      ensures Valid() && faults >= old(faults)
      ensures faults == old(faults) <==> res >= 0
      ensures log == old(log) + [Fetch(res >= 0)]
      ensures res >= 0 ==> res == mem[old(pointer)] && pointer == (old(pointer) + 1) % EEPROM_SIZE
      ensures res < 0 ==> pointer == old(pointer)
    {
      if * {
        res :| -4096 < res < 0;
        faults := faults + 1;
      } else {
        res := mem[pointer];
        pointer := (pointer + 1) % EEPROM_SIZE;
      }
      log := log + [Fetch(res >= 0)];
    }

    /** A word write: the low half of the address, then the byte to store. */
    method WriteWord(high: byte, word: nat) returns (ret: int)
      requires Valid() && word < 0x10000
      modifies this
      ensures Valid() && faults >= old(faults)
      ensures faults == old(faults) <==> ret >= 0
      ensures log == old(log) + [Store((256 * high + word % 256) % EEPROM_SIZE, word / 256, ret >= 0)]
      ensures mem == if ret >= 0 then old(mem)[(256 * high + word % 256) % EEPROM_SIZE := word / 256] else old(mem)
    {
      ret :| -4096 < ret <= 0;
      log := log + [Store((256 * high + word % 256) % EEPROM_SIZE, word / 256, ret >= 0)];
      if ret >= 0 {
        pointer := (256 * high + word % 256) % EEPROM_SIZE;
        mem := mem[pointer := word / 256];
        pointer := (pointer + 1) % EEPROM_SIZE;
      } else {
        faults := faults + 1;
      }
    }
  }

  function Stored(off: nat, bytes: seq<byte>): (ops: seq<Op>)
    ensures |ops| == |bytes|
  {
    seq(|bytes|, i requires 0 <= i < |bytes| => Store(off + i, bytes[i], true))
  }

  lemma StoredSnoc(off: nat, bytes: seq<byte>, i: nat)
    requires i < |bytes|
    ensures Stored(off, bytes[..i + 1]) == Stored(off, bytes[..i]) + [Store(off + i, bytes[i], true)]
  {
  }

  /** The operations of a write: one a byte up to the first failure. */
  function Stores(off: nat, bytes: seq<byte>, written: nat): seq<Op>
    requires written <= |bytes|
  {
    Stored(off, bytes[..written]) + if written < |bytes| then [Store(off + written, bytes[written], false)] else []
  }

  // ----- The driver --------------------------------------------------------------------------

  /** How much of a request lies inside the device. */
  function Window(off: nat, count: nat): (n: nat)
    ensures n <= count && (n > 0 ==> off + n <= EEPROM_SIZE)
  {
    if off > EEPROM_SIZE then 0 else Min(count, EEPROM_SIZE - off)
  }

  ghost predicate AddressedIn(ops: seq<Op>, s: nat) {
    exists ok :: Address(s * SLICE_SIZE, ok) in ops
  }

  /** Of the slices from `first` up to this one, those due were addressed, and no other slice was. */
  ghost predicate Asked(ops: seq<Op>, due: set<nat>, first: nat, slice: nat) {
    forall s: nat :: AddressedIn(ops, s) <==> first <= s < slice && s in due
  }

  lemma AskedNone(due: set<nat>, first: nat)
    ensures Asked([], due, first, first)
  {
  }

  lemma AskedNext(ops: seq<Op>, more: seq<Op>, due: set<nat>, first: nat, slice: nat)
    requires first <= slice && Asked(ops, due, first, slice)
    requires if slice in due then more != [] && more[0].Address? && more[0].at == slice * SLICE_SIZE else more == []
    requires more != [] ==> forall op :: op in more[1..] ==> op.Fetch?
    ensures Asked(ops + more, due, first, slice + 1)
  {
    assert more != [] ==> more == [more[0]] + more[1..];
    forall s: nat ensures AddressedIn(ops + more, s) <==> AddressedIn(ops, s) || (s == slice && s in due) {
      if s == slice && s in due {
        assert Address(s * SLICE_SIZE, more[0].ok) in ops + more;
      }
      if AddressedIn(ops, s) {
        var ok :| Address(s * SLICE_SIZE, ok) in ops;
        assert Address(s * SLICE_SIZE, ok) in ops + more;
      }
    }
  }

  // ----- The plain array the cache stands for ------------------------------------------------

  datatype Request =
    | ReadReq(off: nat, count: nat, clock: nat -> nat)
    | WriteReq(off: nat, bytes: seq<byte>)

  /** A read whose clock would expire a zeroed timestamp. */
  ghost predicate Timely(word: nat, hz: nat, req: Request)
    requires word > 0
  {
    req.ReadReq? ==> forall s: nat :: InRange(word, hz, req.clock(s))
  }

  function PlainStep(mem: seq<byte>, req: Request): (m: seq<byte>)
    requires |mem| == EEPROM_SIZE
    ensures |m| == EEPROM_SIZE
  {
    match req
    case ReadReq(_, _, _) => mem
    case WriteReq(off, bytes) =>
      var n := Window(off, |bytes|);
      if n > 0 then Splice(mem, off, bytes[..n]) else mem
  }

  function PlainAnswer(mem: seq<byte>, req: Request): seq<byte>
    requires |mem| == EEPROM_SIZE
  {
    match req
    case ReadReq(off, count, _) =>
      var n := Window(off, count);
      if n > 0 then mem[off..off + n] else []
    case WriteReq(_, _) => []
  }

  function PlainRun(mem: seq<byte>, reqs: seq<Request>): (m: seq<byte>)
    requires |mem| == EEPROM_SIZE
    ensures |m| == EEPROM_SIZE
  {
    if reqs == [] then mem else PlainStep(PlainRun(mem, reqs[..|reqs| - 1]), reqs[|reqs| - 1])
  }

  function PlainAnswers(mem: seq<byte>, reqs: seq<Request>): seq<seq<byte>>
    requires |mem| == EEPROM_SIZE
  {
    if reqs == [] then []
    else
      var k := |reqs| - 1;
      PlainAnswers(mem, reqs[..k]) + [PlainAnswer(PlainRun(mem, reqs[..k]), reqs[k])]
  }

  /** A read gives the bytes it asks for, as far as there are any, and a write replaces just these. */
  lemma PlainArray(mem: seq<byte>, off: nat, count: nat, clock: nat -> nat, bytes: seq<byte>)
    requires |mem| == EEPROM_SIZE
    ensures off + count <= 512 ==> PlainAnswer(mem, ReadReq(off, count, clock)) == mem[off..off + count]
    ensures off <= 512 < off + count ==> PlainAnswer(mem, ReadReq(off, count, clock)) == mem[off..]
    ensures off > 512 ==> PlainAnswer(mem, ReadReq(off, count, clock)) == []
    ensures PlainStep(mem, ReadReq(off, count, clock)) == mem
    ensures forall i :: 0 <= i < 512 ==>
              PlainStep(mem, WriteReq(off, bytes))[i] == if off <= i < off + |bytes| then bytes[i - off] else mem[i]
  {
    if off <= 512 {
      assert mem[off..off] == [] && mem[off..512] == mem[off..];
    }
  }

  class Cache {
    var valid: nat
    const lastUpdated: array<nat>
    const data: array<byte>
    const dev: Eeprom
    /** The modulus of jiffies and the tick rate. */
    const word: nat
    const hz: nat

    constructor (dev: Eeprom, word: nat, hz: nat)
      requires dev.Valid() && word > 0
      ensures Valid() && Coherent() && this.dev == dev && this.word == word && this.hz == hz
      ensures fresh(data) && fresh(lastUpdated)
    {
      this.dev, this.word, this.hz := dev, word, hz;
      valid := 0;
      lastUpdated := new nat[SLICE_NUM](_ => 0);
      data := new byte[EEPROM_SIZE](_ => 0xff);
      new;
      forall s: nat ensures !TestBit(0, s) {
        NoBits(s);
      }
    }

    ghost predicate Valid()
      reads this, dev
    {
      dev.Valid() && word > 0 && lastUpdated.Length == SLICE_NUM && data.Length == EEPROM_SIZE
    }

    /** The cached slice equals the device. */
    ghost predicate Fresh(s: nat)
      requires Valid()
      reads this, dev, data
    {
      forall k :: s * 64 <= k < s * 64 + 64 && k < EEPROM_SIZE ==> data[k] == dev.mem[k]
    }

    /** What every call keeps: a valid slice equals the device, or its timestamp is zero. */
    ghost predicate Coherent()
      requires Valid()
      reads this, dev, data, lastUpdated
    {
      forall s :: 0 <= s < SLICE_NUM && TestBit(valid, s) ==> lastUpdated[s] == 0 || Fresh(s)
    }

    /** The cache consults the device for this slice at this time. */
    ghost predicate Refreshes(s: nat, now: nat)
      requires Valid() && s < SLICE_NUM
      reads this, dev, lastUpdated
    {
      !TestBit(valid, s) || Expired(word, hz, now, lastUpdated[s])
    }

    /**
     Refreshes one slice if it is invalid or expired; a failure leaves what was read so far, the bit and the
     time. The result counts the bytes read.
     */
    method UpdateClient(slice: nat, now: nat) returns (got: nat)
      requires Valid() && slice < SLICE_NUM
      modifies this`valid, lastUpdated, data, dev`pointer, dev`faults, dev`log
      ensures Valid() && dev.faults >= old(dev.faults)
      ensures old(Coherent()) ==> Coherent()
      ensures got <= 64 && forall k :: 0 <= k < 512 ==>
                data[k] == if slice * 64 <= k < slice * 64 + got then dev.mem[k] else old(data[k])
      ensures old(TestBit(valid, slice) && !TimeAfter(word, now, (lastUpdated[slice] + 300 * hz) % word)) ==>
                got == 0 && dev.log == old(dev.log) && dev.pointer == old(dev.pointer) && dev.faults == old(dev.faults)
      ensures old(!TestBit(valid, slice) || TimeAfter(word, now, (lastUpdated[slice] + 300 * hz) % word)) ==>
                && (dev.faults == old(dev.faults) <==> got == 64)
                && (|| (got == 0 && dev.log == old(dev.log) + [Address(slice * 64, false)])
                    || dev.log == old(dev.log) + [Address(slice * 64, true)] + Fetches(got))
      ensures forall s :: 0 <= s < SLICE_NUM && s != slice ==> lastUpdated[s] == old(lastUpdated[s])
      ensures valid == if got == 64 then SetBit(old(valid), slice) else old(valid)
      ensures forall s: nat :: s < SLICE_NUM && s != slice ==> (TestBit(valid, s) <==> old(TestBit(valid, s)))
      ensures old(Coherent()) && dev.faults == old(dev.faults) && InRange(word, hz, now) ==> Fresh(slice)
      ensures lastUpdated[slice] == if got == 64 then now else old(lastUpdated[slice])
    {
      got := 0;
      if !TestBit(valid, slice) || TimeAfter(word, now, (lastUpdated[slice] + 300 * hz) % word) {
        hide Fetches, TestBit, SetBit;
        got := FetchSlice(slice);
        if got < SLICE_SIZE {
          return;
        }
        lastUpdated[slice] := now;
        valid := SetBit(valid, slice);
        forall s: nat | s < SLICE_NUM ensures TestBit(valid, s) <==> s == slice || TestBit(old(valid), s) {
          SetBitMeaning(old(valid), slice, s);
        }
      }
    }

    /** Sets the address of a slice and reads byte by byte, up to the first failure. */
    method FetchSlice(slice: nat) returns (got: nat)
      requires Valid() && slice < SLICE_NUM
      modifies data, dev`pointer, dev`faults, dev`log
      ensures Valid() && dev.faults >= old(dev.faults)
      ensures got <= 64 && forall k :: 0 <= k < 512 ==>
                data[k] == if slice * 64 <= k < slice * 64 + got then dev.mem[k] else old(data[k])
      ensures dev.faults == old(dev.faults) <==> got == 64
      ensures || (got == 0 && dev.log == old(dev.log) + [Address(slice * 64, false)])
              || dev.log == old(dev.log) + [Address(slice * 64, true)] + Fetches(got)
    {
      hide Fetched;
      var addr := slice * 64;
      var high, low := (addr / 256) % 256, addr % 256;
      assert (256 * high + low) % EEPROM_SIZE == addr by {
        AddressSplit(addr, 0);
      }
      var ret := dev.SetAddress(high, low);
      if ret < 0 {
        return 0;
      }
      ghost var asked := dev.log;
      var j := addr;
      while j < addr + SLICE_SIZE
        invariant addr <= j <= addr + SLICE_SIZE && Valid()
        invariant dev.faults == old(dev.faults) && (j < EEPROM_SIZE ==> dev.pointer == j)
        invariant dev.log == asked + Fetched(j - addr)
        invariant forall k :: addr <= k < j ==> data[k] == dev.mem[k]
        invariant forall k :: 0 <= k < EEPROM_SIZE && !(addr <= k < j) ==> data[k] == old(data[k])
      {
        var res := dev.ReadByte();
        if res < 0 {
          return j - addr;
        }
        data[j] := res;
        FetchedSnoc(j - addr);
        j := j + 1;
      }
      got := SLICE_SIZE;
    }

    /**
     `clock` gives the time at which each slice is looked at. The answer is the cache's, after every due slice
     of the request was asked for, and no other.
     */
    method Read(buf: array<byte>, off: nat, count: nat, clock: nat -> nat) returns (ret: nat)
      requires Valid() && count <= buf.Length && buf != data
      modifies this`valid, lastUpdated, data, dev`pointer, dev`faults, dev`log, buf
      ensures Valid() && dev.faults >= old(dev.faults)
      ensures old(Coherent()) ==> Coherent()
      ensures ret == if off > 512 then 0 else if count <= 512 - off then count else 512 - off
      ensures ret > 0 ==> buf[..] == data[off..off + ret] + old(buf[..])[ret..]
      ensures ret == 0 ==> buf[..] == old(buf[..]) && dev.log == old(dev.log)
      ensures old(dev.log) <= dev.log
      ensures ret > 0 ==>
                var due := old(set s: nat | s < SLICE_NUM && Refreshes(s, clock(s)));
                Asked(dev.log[|old(dev.log)|..], due, off / 64, (off + ret - 1) / 64 + 1)
      ensures forall k :: 0 <= k < 512 && (ret == 0 || k / 64 < off / 64 || k / 64 > (off + ret - 1) / 64) ==>
                data[k] == old(data[k])
      ensures old(Coherent()) && dev.faults == old(dev.faults) && (forall s: nat :: InRange(word, hz, clock(s))) ==>
                ret > 0 ==> buf[..ret] == dev.mem[off..off + ret]
    {
      if off > EEPROM_SIZE {
        return 0;
      }
      var n := count;
      if off + n > EEPROM_SIZE {
        n := EEPROM_SIZE - off;
      }
      if n == 0 {
        return 0;
      }
      var first, last := off / 64, (off + n - 1) / 64;
      RefreshSlices(first, last, clock);
      forall k | 0 <= k < n {
        buf[k] := data[off + k];
      }
      ret := n;
    }

    /** Only the slices that contain requested bytes. */
    method RefreshSlices(first: nat, last: nat, clock: nat -> nat)
      requires Valid() && first <= last < SLICE_NUM
      modifies this`valid, lastUpdated, data, dev`pointer, dev`faults, dev`log
      ensures Valid() && dev.faults >= old(dev.faults) && old(dev.log) <= dev.log
      ensures old(Coherent()) ==> Coherent()
      ensures var due := old(set s: nat | s < SLICE_NUM && Refreshes(s, clock(s)));
              Asked(dev.log[|old(dev.log)|..], due, first, last + 1)
      ensures forall k :: 0 <= k < 512 && !(first * 64 <= k < last * 64 + 64) ==> data[k] == old(data[k])
      ensures old(Coherent()) && dev.faults == old(dev.faults) && (forall s: nat :: InRange(word, hz, clock(s))) ==>
                forall k :: first * 64 <= k < last * 64 + 64 ==> data[k] == dev.mem[k]
    {
      hide Fetches, TestBit, SetBit, TimeAfter, Asked, AddressedIn, InRange;
      ghost var due := set s: nat | s < SLICE_NUM && Refreshes(s, clock(s));
      AskedNone(due, first);
      assert dev.log[|dev.log|..] == [];
      var slice := first;
      while slice <= last
        invariant first <= slice <= last + 1 <= SLICE_NUM && Valid()
        invariant dev.faults >= old(dev.faults) && old(dev.log) <= dev.log
        invariant Asked(dev.log[|old(dev.log)|..], due, first, slice)
        invariant forall s: nat :: slice <= s < SLICE_NUM ==> (Refreshes(s, clock(s)) <==> s in due)
        invariant forall k :: 0 <= k < 512 && !(first * 64 <= k < slice * 64) ==> data[k] == old(data[k])
        invariant old(Coherent()) ==> Coherent()
        invariant old(Coherent()) && dev.faults == old(dev.faults) && (forall s: nat :: InRange(word, hz, clock(s))) ==>
                    forall k :: first * 64 <= k < slice * 64 ==> data[k] == dev.mem[k]
      {
        ghost var log0 := dev.log;
        var _ := UpdateClient(slice, clock(slice));
        ghost var ops, more := log0[|old(dev.log)|..], dev.log[|log0|..];
        assert dev.log[|old(dev.log)|..] == ops + more;
        AskedNext(ops, more, due, first, slice);
        slice := slice + 1;
      }
    }

    /** Stores byte by byte up to the first failure, then zeroes every timestamp, come what may. */
    method Write(buf: array<byte>, off: nat, count: nat) returns (ret: nat, ghost written: nat)
      requires Valid() && count <= buf.Length && buf != data
      modifies lastUpdated, dev
      ensures Valid() && dev.faults >= old(dev.faults)
      ensures old(Coherent()) ==> Coherent()
      ensures ret == if off > 512 then 0 else if count <= 512 - off then count else 512 - off
      ensures written <= ret && (dev.faults == old(dev.faults) <==> written == ret)
      ensures dev.mem == if ret > 0 then Splice(old(dev.mem), off, buf[..written]) else old(dev.mem)
      ensures dev.log == old(dev.log) + Stores(off, buf[..ret], written)
      ensures forall s :: 0 <= s < SLICE_NUM ==> lastUpdated[s] == if ret > 0 then 0 else old(lastUpdated[s])
    {
      if off > EEPROM_SIZE {
        return 0, 0;
      }
      var n := count;
      if off + n > EEPROM_SIZE {
        n := EEPROM_SIZE - off;
      }
      if n == 0 {
        return 0, 0;
      }
      written := StoreBytes(buf, off, n);
      ForceRefresh();
      ret := n;
    }

    method StoreBytes(buf: array<byte>, off: nat, n: nat) returns (ghost written: nat)
      requires Valid() && 0 < n <= buf.Length && off + n <= EEPROM_SIZE
      modifies dev
      ensures Valid() && dev.faults >= old(dev.faults) && written <= n
      ensures dev.faults == old(dev.faults) <==> written == n
      ensures dev.mem == Splice(old(dev.mem), off, buf[..written])
      ensures dev.log == old(dev.log) + Stores(off, buf[..n], written)
    {
      hide Splice, Stored;
      assert Splice(dev.mem, off, buf[..0]) == dev.mem;
      var i := 0;
      ghost var d0 := buf[..n];
      while i < n
        invariant i <= n && Valid()
        invariant dev.faults == old(dev.faults)
        invariant dev.mem == Splice(old(dev.mem), off, buf[..i])
        invariant dev.log == old(dev.log) + Stored(off, d0[..i])
      {
        var at := off + i;
        var cmd, value16 := (at / 256) % 256, at % 256 + 256 * buf[i];
        assert (256 * cmd + value16 % 256) % EEPROM_SIZE == at && value16 / 256 == buf[i] && value16 < 0x10000 by {
          AddressSplit(at, buf[i]);
        }
        var status := dev.WriteWord(cmd, value16);
        if status < 0 {
          return i;
        }
        ghost var d := buf[..i + 1];
        assert d[..i] == buf[..i] == d0[..i] && d == d0[..i + 1];
        SpliceSnoc(old(dev.mem), off, d);
        StoredSnoc(off, d0, i);
        i := i + 1;
      }
      written := n;
    }

    method ForceRefresh()
      requires Valid()
      modifies lastUpdated
      ensures forall s :: 0 <= s < SLICE_NUM ==> lastUpdated[s] == 0
    {
      for s := 0 to SLICE_NUM
        invariant forall t :: 0 <= t < s ==> lastUpdated[t] == 0
      {
        lastUpdated[s] := 0;
      }
    }

    /** Any run of reads and writes, one after the other. */
    method Session(reqs: seq<Request>) returns (answers: seq<seq<byte>>)
      requires Valid() && Coherent()
      modifies this`valid, lastUpdated, data, dev
      ensures Valid() && Coherent() && dev.faults >= old(dev.faults)
      ensures dev.faults == old(dev.faults) && (forall i :: 0 <= i < |reqs| ==> Timely(word, hz, reqs[i])) ==>
                answers == PlainAnswers(old(dev.mem), reqs) && dev.mem == PlainRun(old(dev.mem), reqs)
    {
      ghost var mem0 := dev.mem;
      answers := [];
      for i := 0 to |reqs|
        invariant Valid() && Coherent() && dev.faults >= old(dev.faults)
        invariant dev.faults == old(dev.faults) && (forall j :: 0 <= j < i ==> Timely(word, hz, reqs[j])) ==>
                    answers == PlainAnswers(mem0, reqs[..i]) && dev.mem == PlainRun(mem0, reqs[..i])
      {
        assert reqs[..i + 1][..i] == reqs[..i];
        var answer := Serve(reqs[i]);
        answers := answers + [answer];
      }
      assert reqs[..|reqs|] == reqs;
    }

    method Serve(req: Request) returns (answer: seq<byte>)
      requires Valid() && Coherent()
      modifies this`valid, lastUpdated, data, dev
      ensures Valid() && Coherent() && dev.faults >= old(dev.faults)
      ensures dev.faults == old(dev.faults) && Timely(word, hz, req) ==>
                answer == PlainAnswer(old(dev.mem), req) && dev.mem == PlainStep(old(dev.mem), req)
    {
      match req
      case ReadReq(off, count, clock) =>
        var buf := new byte[count](_ => 0);
        var n := Read(buf, off, count, clock);
        answer := buf[..n];
      case WriteReq(off, bytes) =>
        var buf := new byte[|bytes|](i requires 0 <= i < |bytes| => bytes[i]);
        assert buf[..] == bytes;
        ghost var written;
        var n;
        n, written := Write(buf, off, |bytes|);
        assert buf[..n] == bytes[..n];
        answer := [];
    }

    /**
     A byte just written to a slice that the cache holds is what the next read returns exactly when
     the clock is in range, or when the cache happened to hold that value already.
     */
    method WriteThenRead(off: nat, v: byte, now: nat) returns (seen: byte)
      requires Valid() && Coherent() && off < EEPROM_SIZE && TestBit(valid, off / 64)
      modifies this`valid, lastUpdated, data, dev
      ensures Valid() && Coherent()
      ensures dev.faults == old(dev.faults) ==>
                (seen == dev.mem[off] == v <==> InRange(word, hz, now) || old(data[off]) == v)
    {
      var buf := new byte[1](_ => v);
      ghost var written;
      var n;
      n, written := Write(buf, off, 1);
      assert buf[..1] == [v];
      ghost var before := data[off];
      var _ := UpdateClient(off / 64, now);
      seen := data[off];
      assert data[..][off] == data[off];
    }
  }
}
