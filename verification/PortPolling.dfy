/**
 The port polling of the Netberg hardware monitor on Huracan: a thread that walks through five or
 six steps, reading the modules of 32 ports through two levels of I2C multiplexers.
 */
module PortPolling {
  import opened Basics
  import opened Bits

  const PORTS := 32
  const IMAGE_SIZE := 256
  const TX_DISABLE_ADDR := 86
  const WRITE_RETRIES := 3

  function Zeros(): seq<byte> {
    seq<byte>(IMAGE_SIZE, _ => 0)
  }

  /** What the driver gets of an image whose blocks come back with these counts: each block's rest is zeros. */
  function Received(image: seq<byte>, counts: seq<int>): (r: seq<byte>)
    requires |image| == IMAGE_SIZE && |counts| <= 8
    ensures |r| == 32 * |counts|
  {
    seq<byte>(32 * |counts|, i requires 0 <= i < 32 * |counts| => if i % 32 < counts[i / 32] then image[i] else 0)
  }

  predicate WholeBlocks(counts: seq<int>) {
    |counts| == 8 && forall i :: 0 <= i < 8 ==> counts[i] == 32
  }

  /** The image is complete exactly when every byte past a short count happens to be zero, */
  lemma ReceivedIsImageIff(image: seq<byte>, counts: seq<int>)
    requires |image| == IMAGE_SIZE && |counts| == 8
    ensures Received(image, counts) == image
       <==> forall i :: 0 <= i < IMAGE_SIZE && i % 32 >= counts[i / 32] ==> image[i] == 0
  {
    var r := Received(image, counts);
    if forall i :: 0 <= i < IMAGE_SIZE && i % 32 >= counts[i / 32] ==> image[i] == 0 {
      assert forall i :: 0 <= i < IMAGE_SIZE ==> r[i] == image[i];
    } else {
      var i :| 0 <= i < IMAGE_SIZE && i % 32 >= counts[i / 32] && image[i] != 0;
      assert r[i] != image[i];
    }
  }

  /** so, whatever the module holds, exactly when all eight counts were 32. */
  lemma CompleteForAllIffWhole(counts: seq<int>)
    requires |counts| == 8 && forall i :: 0 <= i < 8 ==> counts[i] <= 32
    ensures (forall image: seq<byte> :: |image| == IMAGE_SIZE ==> Received(image, counts) == image)
       <==> WholeBlocks(counts)
  {
    if WholeBlocks(counts) {
      forall image: seq<byte> | |image| == IMAGE_SIZE ensures Received(image, counts) == image {
        ReceivedIsImageIff(image, counts);
      }
    } else {
      var i :| 0 <= i < 8 && counts[i] < 32;
      var ones := seq<byte>(IMAGE_SIZE, _ => 0xFF);
      assert Received(ones, counts)[32 * i + 31] == 0;
    }
  }

  /** A module of ones whose last block comes back empty: no status is negative, and the copy ends in zeros. */
  lemma ShortBlockShowsZeros()
    ensures var ones := seq<byte>(IMAGE_SIZE, _ => 0xFF);
            var copy := Received(ones, [32, 32, 32, 32, 32, 32, 32, 0]);
            |copy| == IMAGE_SIZE && copy != ones && copy[223] == 0xFF && copy[224] == copy[255] == 0
  {
    var ones := seq<byte>(IMAGE_SIZE, _ => 0xFF);
    assert ones[224] == 0xFF;
  }

  /** What a round of block reads may come to: it goes on to the eighth block or to the first negative status. */
  predicate Legitimate(statuses: seq<int>) {
    && 1 <= |statuses| <= 8
    && (forall i :: 0 <= i < |statuses| ==> statuses[i] <= 32)
    && (forall i :: 0 <= i < |statuses| - 1 ==> statuses[i] >= 0)
    && (|statuses| < 8 ==> statuses[|statuses| - 1] < 0)
  }

  /** All eight blocks came back, short or not. */
  predicate Complete(statuses: seq<int>) {
    |statuses| == 8 && forall i :: 0 <= i < 8 ==> 0 <= statuses[i] <= 32
  }

  /** Where the driver got an image from: what the module held, and the counts of the eight reads. */
  datatype Poll = Poll(image: seq<byte>, counts: seq<int>)

  ghost predicate FromPoll(history: set<(nat, seq<byte>)>, p: nat, image: seq<byte>, poll: Poll) {
    && (p, poll.image) in history && |poll.image| == IMAGE_SIZE
    && Complete(poll.counts)
    && image == Received(poll.image, poll.counts)
  }

  /** All there is to say about one port. */
  datatype PortState = PortState(valid: bool, image: seq<byte>, txUpdate: bool, inside: seq<byte>)

  /** A port was served: polled if present, cleared if not. */
  ghost predicate Served(present: bool, before: PortState, after: PortState, txDisable: byte)
    requires |before.inside| == IMAGE_SIZE
  {
    if present then
      && after.valid && after.image == after.inside && !after.txUpdate
      && after.inside == if before.txUpdate then Patch(before.inside, TX_DISABLE_ADDR, txDisable) else before.inside
    else
      after == PortState(false, Zeros(), true, before.inside)
  }

  /** One operation on the bus, as it went. */
  datatype Event =
    | Root(channel: nat, ok: bool)
    | Sub(group: nat, value: nat, ok: bool)
    | Tx(sent: byte, ok: bool)
    | Block(at: nat, status: int)
    | Absence(word: nat, bits: nat)
    | Leds(ok: bool)

  /** A transmit-disable byte that was due: after so many failed attempts it reached the module, unless these were 3. */
  datatype Sent = Sent(value: byte, fails: nat)

  /** What the thread did about one port. */
  datatype Visit =
    | Absent(port: nat)
    | Unselected(port: nat, released: bool)
    | Polled(port: nat, tx: Option<Sent>, statuses: seq<int>, released: bool)

  function FailedTx(v: byte, fails: nat): seq<Event> {
    seq(fails, _ => Tx(v, false))
  }

  function TxEvents(tx: Option<Sent>): seq<Event> {
    match tx
    case None => []
    case Some(Sent(v, fails)) => FailedTx(v, fails) + if fails < WRITE_RETRIES then [Tx(v, true)] else []
  }

  function BlockEvents(statuses: seq<int>): seq<Event> {
    seq(|statuses|, i requires 0 <= i < |statuses| => Block(32 * i, statuses[i]))
  }

  /** The bus operations of a visit. */
  function Trace(v: Visit): seq<Event> {
    var group, bit := v.port / 8, SetBit(0, v.port % 8);
    match v
    case Absent(_) => []
    case Unselected(_, released) => [Sub(group, bit, false), Sub(group, 0, released)]
    case Polled(_, tx, statuses, released) =>
      [Sub(group, bit, true)] + TxEvents(tx) + BlockEvents(statuses) + [Sub(group, 0, released)]
  }

  function Traces(vs: seq<Visit>): seq<Event> {
    if vs == [] then [] else Traces(vs[..|vs| - 1]) + Trace(vs[|vs| - 1])
  }

  /** The ports of these visits, in order. */
  function Ports(vs: seq<Visit>): (ps: seq<nat>)
    ensures |ps| == |vs|
  {
    seq<nat>(|vs|, i requires 0 <= i < |vs| => vs[i].port)
  }

  lemma PortsAppend(vs: seq<Visit>, ws: seq<Visit>)
    ensures Ports(vs + ws) == Ports(vs) + Ports(ws)
  {
  }

  /**
   What a visit leaves of a port. A port that could not be selected is as it was; one that was has no
   byte pending, and a new image and a set valid bit exactly when none of its eight block reads failed.
   */
  ghost predicate Outcome(v: Visit, before: PortState, after: PortState, txDisable: byte)
    requires |before.inside| == IMAGE_SIZE
  {
    match v
    case Absent(_) => after == PortState(false, Zeros(), true, before.inside)
    case Unselected(_, _) => after == before
    case Polled(_, tx, statuses, _) =>
      && !after.txUpdate && Legitimate(statuses)
      && (if before.txUpdate then tx.Some? && tx.value.value == txDisable && tx.value.fails <= 3 else tx.None?)
      && after.inside == (if tx.Some? && tx.value.fails < 3 then Patch(before.inside, TX_DISABLE_ADDR, txDisable)
                          else before.inside)
      && if Complete(statuses) then after.valid && after.image == Received(after.inside, statuses)
         else after.valid == before.valid && after.image == before.image
  }

  /** No operation of the visit failed and no block was short. */
  predicate Flawless(v: Visit) {
    match v
    case Absent(_) => true
    case Unselected(_, _) => false
    case Polled(_, tx, statuses, released) => (tx.Some? ==> tx.value.fails == 0) && WholeBlocks(statuses) && released
  }

  lemma FlawlessServes(v: Visit, before: PortState, after: PortState, txDisable: byte)
    requires |before.inside| == IMAGE_SIZE && Outcome(v, before, after, txDisable) && Flawless(v)
    ensures Served(!v.Absent?, before, after, txDisable)
  {
    if v.Polled? {
      CompleteForAllIffWhole(v.statuses);
    }
  }

  lemma ServedIsShown(present: bool, before: PortState, after: PortState, txDisable: byte)
    requires |before.inside| == IMAGE_SIZE && Served(present, before, after, txDisable)
    ensures after.valid == present
  {
  }

  function Patch(image: seq<byte>, at: nat, v: byte): (r: seq<byte>)
    requires at < |image|
    ensures |r| == |image|
  {
    image[at := v]
  }

  /**
   The bus behind the root multiplexer. A module answers when the root and its group's multiplexer
   both select it; if that is not exactly one module, reads return anything. Every operation may
   fail, and a failed write changes nothing; `faults` counts the failures.
   */
  class PortBus {
    var root: nat
    var sub: seq<nat>
    var modules: seq<seq<byte>>
    /** The absence lines of the ports, as two words; a set bit means no module. */
    var absent: seq<nat>
    ghost var faults: nat
    /** All operations so far, in order. */
    ghost var events: seq<Event>
    /** Every image that the module of a port ever had. */
    ghost var history: set<(nat, seq<byte>)>

    constructor (modules: seq<seq<byte>>, absent: seq<nat>)
      requires |modules| == PORTS && forall m :: m in modules ==> |m| == IMAGE_SIZE
      requires |absent| == 2
      ensures Valid() && this.modules == modules && this.absent == absent
    {
      root, sub, faults, events := 0, [0, 0, 0, 0], 0, [];
      this.modules, this.absent := modules, absent;
      history := set p: nat | p < PORTS :: (p, modules[p]);
    }

    ghost predicate Valid()
      reads this
    {
      |sub| == 4 && |absent| == 2 && |modules| == PORTS
      && forall p: nat :: p < PORTS ==> |modules[p]| == IMAGE_SIZE && (p, modules[p]) in history
    }

    /** Modules come and go between two turns, and others use the multiplexers under the same lock. */
    method Meanwhile(modules: seq<seq<byte>>, absent: seq<nat>)
      requires Valid() && |modules| == PORTS && |absent| == 2
      requires forall p: nat :: p < PORTS ==> |modules[p]| == IMAGE_SIZE
      modifies this`root, this`sub, this`modules, this`absent, this`history
      ensures Valid() && this.modules == modules && this.absent == absent && old(history) <= history
    {
      this.modules, this.absent := modules, absent;
      history := history + set p: nat | p < PORTS :: (p, modules[p]);
      var r: nat, a: nat, b: nat, c: nat, d: nat := *, *, *, *, *;
      root, sub := r, [a, b, c, d];
    }

    predicate Visible(p: nat)
      requires |sub| == 4 && p < PORTS
      reads this`root, this`sub
    {
      TestBit(root, p / 8) && TestBit(sub[p / 8], p % 8)
    }

    ghost predicate OnlyVisible(p: nat)
      requires |sub| == 4 && p < PORTS
      reads this`root, this`sub
    {
      forall q: nat :: q < PORTS ==> (Visible(q) <==> q == p)
    }

    method SelectRoot(channel: nat) returns (ret: int)
      requires Valid()
      modifies this`root, this`faults, this`events
      ensures Valid() && faults >= old(faults)
      ensures events == old(events) + [Root(channel, ret >= 0)]
      ensures faults == old(faults) <==> ret >= 0
      ensures root == if ret >= 0 then SetBit(0, channel) else old(root)
    {
      ret :| -4096 < ret <= 0;
      events := events + [Root(channel, ret >= 0)];
      if ret >= 0 {
        root := SetBit(0, channel);
      } else {
        faults := faults + 1;
      }
    }

    method WriteSub(group: nat, value: nat) returns (ret: int)
      requires Valid() && group < 4
      modifies this`sub, this`faults, this`events
      ensures Valid() && faults >= old(faults)
      ensures events == old(events) + [Sub(group, value, ret >= 0)]
      ensures faults == old(faults) <==> ret >= 0
      ensures sub == if ret >= 0 then old(sub)[group := value] else old(sub)
    {
      ret :| -4096 < ret <= 0;
      events := events + [Sub(group, value, ret >= 0)];
      if ret >= 0 {
        sub := sub[group := value];
      } else {
        faults := faults + 1;
      }
    }

    /** A failed word read still yields a number: the error code, cut to sixteen bits. */
    method ReadAbsence(i: nat) returns (value: nat)
      requires Valid() && i < 2
      modifies this`faults, this`events
      ensures faults >= old(faults)
      ensures events == old(events) + [Absence(i, value)]
      ensures faults == old(faults) ==> value == absent[i]
    {
      value := absent[i];
      if * {
        value := *;
        faults := faults + 1;
      }
      events := events + [Absence(i, value)];
    }

    method WriteLeds() returns (ret: int)
      modifies this`faults, this`events
      ensures faults >= old(faults)
      ensures events == old(events) + [Leds(ret >= 0)]
      ensures faults == old(faults) <==> ret >= 0
    {
      ret :| -4096 < ret <= 0;
      events := events + [Leds(ret >= 0)];
      if ret < 0 {
        faults := faults + 1;
      }
    }

    /** A byte write to the selected module. */
    method WriteByte(addr: nat, v: byte, ghost p: nat) returns (status: int)
      requires Valid() && addr < IMAGE_SIZE && p < PORTS && OnlyVisible(p)
      modifies this`modules, this`faults, this`history, this`events
      ensures Valid() && faults >= old(faults) && old(history) <= history
      ensures events == old(events) + [Tx(v, status >= 0)]
      ensures faults == old(faults) <==> status >= 0
      ensures status < 0 ==> history == old(history)
      ensures modules == if status >= 0 then old(modules)[p := Patch(old(modules)[p], addr, v)] else old(modules)
    {
      status :| -4096 < status <= 0;
      events := events + [Tx(v, status >= 0)];
      if status >= 0 {
        assert Visible(p);
        var target :| 0 <= target < PORTS && Visible(target);
        modules := modules[target := Patch(modules[target], addr, v)];
        history := history + {(target, modules[target])};
      } else {
        faults := faults + 1;
      }
    }

    /** Up to 32 bytes of the selected module; the status is their number, and the rest of the block is zeros. */
    method ReadBlock(at: nat, ghost p: nat) returns (ret: int, block: seq<byte>)
      requires Valid() && at + 32 <= IMAGE_SIZE && p < PORTS
      modifies this`faults, this`events
      ensures faults >= old(faults)
      ensures events == old(events) + [Block(at, ret)]
      ensures faults == old(faults) <==> ret == 32
      ensures ret <= 32 && |block| == 32
      ensures ret >= 0 && OnlyVisible(p) ==>
                forall i :: 0 <= i < 32 ==> block[i] == if i < ret then modules[p][at + i] else 0
    {
      block := seq<byte>(32, _ => 0);
      assert OnlyVisible(p) ==> Visible(p);
      ret :| -4096 < ret <= 32;
      if ret >= 0 {
        if seen :| 0 <= seen < PORTS && Visible(seen) {
          assert OnlyVisible(p) ==> seen == p;
          block := modules[seen][at..at + ret] + seq<byte>(32 - ret, _ => 0);
          assert forall i :: 0 <= i < 32 ==> block[i] == if i < ret then modules[seen][at + i] else 0;
        }
      }
      events := events + [Block(at, ret)];
      if ret != 32 {
        faults := faults + 1;
      }
    }
  }

  class Poller {
    const bus: PortBus
    const bmc: bool
    var step: nat
    var absStatus: seq<nat>
    const validWords: array<nat>
    const a0: array<seq<byte>>
    const txUpdate: array<bool>
    const txData: array<byte>
    /** What was done about the ports, in order. */
    ghost var visits: seq<Visit>
    /** The last complete round of block reads of each port. */
    ghost var polled: seq<Poll>

    constructor (bus: PortBus, bmc: bool)
      requires bus.Valid()
      ensures Valid() && Genuine() && this.bus == bus && this.bmc == bmc && step == 0 && visits == []
      ensures fresh(validWords) && fresh(a0) && fresh(txUpdate) && fresh(txData)
    {
      this.bus, this.bmc, step, absStatus := bus, bmc, 0, [0, 0];
      validWords := new nat[2](_ => 0);
      a0 := new seq<byte>[PORTS](_ => Zeros());
      txUpdate := new bool[PORTS](_ => true);
      txData := new byte[PORTS](_ => 0);
      visits := [];
      polled := seq(PORTS, _ => Poll([], []));
      new;
      forall p: nat ensures !TestBit(0, p) {
        NoBits(p);
      }
    }

    ghost predicate Valid()
      reads this`absStatus, bus
    {
      bus.Valid() && |absStatus| == 2 && validWords.Length == 2 && a0.Length == PORTS
      && txUpdate.Length == PORTS && txData.Length == PORTS
    }

    predicate ValidBit(p: nat)
      requires validWords.Length == 2 && p < PORTS
      reads validWords
    {
      TestBit(validWords[p / 16], p % 16)
    }

    predicate Present(p: nat)
      requires |absStatus| == 2 && p < PORTS
      reads this`absStatus
    {
      !TestBit(absStatus[p / 16], p % 16)
    }

    predicate AnyPresent(g: nat)
      requires |absStatus| == 2 && g < 4
      reads this`absStatus
    {
      exists p: nat :: g * 8 <= p < g * 8 + 8 && Present(p)
    }

    /** What the port's presence attribute shows. */
    predicate ShowPortAbs(p: nat)
      requires |absStatus| == 2 && validWords.Length == 2 && p < PORTS
      reads this, validWords
    {
      Present(p) && ValidBit(p)
    }

    /**
     A clear valid bit means all zeros, a set one what eight successful block reads gave of an image that the
     port really held.
     */
    ghost predicate Genuine()
      requires Valid()
      reads this`absStatus, this`polled, bus, validWords, a0
    {
      |polled| == PORTS && forall p: nat :: p < PORTS ==>
        if ValidBit(p) then FromPoll(bus.history, p, a0[p], polled[p]) else a0[p] == Zeros()
    }

    ghost function Port(p: nat): (s: PortState)
      requires Valid() && p < PORTS
      ensures |s.inside| == IMAGE_SIZE
      reads this`absStatus, bus, validWords, a0, txUpdate
    {
      PortState(ValidBit(p), a0[p], txUpdate[p], bus.modules[p])
    }

    method SetValid(p: nat, v: bool)
      requires Valid() && p < PORTS
      modifies validWords
      ensures forall q: nat :: q < PORTS ==> (ValidBit(q) <==> if q == p then v else old(ValidBit(q)))
    {
      forall q: nat | q < PORTS && q / 16 == p / 16
        ensures TestBit(SetBit(old(validWords[p / 16]), p % 16), q % 16) <==> q == p || old(ValidBit(q))
        ensures TestBit(ClearBit(old(validWords[p / 16]), p % 16), q % 16) <==> q != p && old(ValidBit(q))
      {
        SetBitMeaning(old(validWords[p / 16]), p % 16, q % 16);
        ClearBitMeaning(old(validWords[p / 16]), p % 16, q % 16);
      }
      validWords[p / 16] := if v then SetBit(validWords[p / 16], p % 16) else ClearBit(validWords[p / 16], p % 16);
    }

    /** Eight blocks into a local buffer, given up at the first failure; a short block is no failure. */
    method BlockRead(ghost p: nat) returns (ret: int, image: seq<byte>, ghost statuses: seq<int>)
      requires Valid() && p < PORTS
      modifies bus`faults, bus`events
      ensures bus.faults >= old(bus.faults)
      ensures bus.faults == old(bus.faults) <==> ret >= 0 && WholeBlocks(statuses)
      ensures bus.events == old(bus.events) + BlockEvents(statuses)
      ensures Legitimate(statuses) && (ret >= 0 <==> Complete(statuses)) && ret == statuses[|statuses| - 1]
      ensures ret >= 0 && bus.OnlyVisible(p) ==> image == Received(bus.modules[p], statuses)
    {
      image, statuses := [], [];
      ret := 0;
      for i := 0 to 8
        invariant |image| == i * 32 && |statuses| == i && ret >= 0 && bus.faults >= old(bus.faults)
        invariant bus.faults == old(bus.faults) <==> forall k :: 0 <= k < i ==> statuses[k] == 32
        invariant forall k :: 0 <= k < i ==> 0 <= statuses[k] <= 32
        invariant i > 0 ==> ret == statuses[i - 1]
        invariant bus.events == old(bus.events) + BlockEvents(statuses)
        invariant bus.OnlyVisible(p) ==> image == Received(bus.modules[p], statuses)
      {
        var block;
        ret, block := bus.ReadBlock(i * 32, p);
        ghost var before := statuses;
        statuses := statuses + [ret];
        assert BlockEvents(statuses) == BlockEvents(before) + [Block(32 * i, ret)];
        assert forall k :: 0 <= k < i ==> statuses[k] == before[k];
        assert statuses[i] == ret;
        if ret < 0 {
          return;
        }
        image := image + block;
      }
    }

    /** The module's transmit-disable byte, tried up to three times: lost exactly when all three fail. */
    method WriteTxDisable(p: nat) returns (status: int, ghost fails: nat)
      requires Valid() && p < PORTS && bus.OnlyVisible(p)
      modifies bus`modules, bus`faults, bus`history, bus`events
      ensures Valid() && old(bus.history) <= bus.history && bus.faults >= old(bus.faults)
      ensures fails <= 3 && (status >= 0 <==> fails < 3) && (bus.faults == old(bus.faults) ==> fails == 0)
      ensures bus.events == old(bus.events) + FailedTx(txData[p], fails)
                            + if fails < 3 then [Tx(txData[p], true)] else []
      ensures bus.modules == if status >= 0
                             then old(bus.modules)[p := Patch(old(bus.modules)[p], 86, txData[p])]
                             else old(bus.modules)
    {
      var retry := WRITE_RETRIES;
      status, fails := 0, 0;
      while retry > 0
        invariant 0 <= retry <= WRITE_RETRIES && fails == WRITE_RETRIES - retry
        invariant Valid() && bus.modules == old(bus.modules) && bus.history == old(bus.history)
        invariant bus.faults >= old(bus.faults)
        invariant bus.events == old(bus.events) + FailedTx(txData[p], fails)
        invariant retry < WRITE_RETRIES ==> status < 0 && bus.faults > old(bus.faults)
      {
        status := bus.WriteByte(TX_DISABLE_ADDR, txData[p], p);
        if status >= 0 {
          break;
        }
        retry, fails := retry - 1, fails + 1;
      }
      if status >= 0 {
        return 1, fails;
      }
    }

    /** Selecting the root channel and the port leaves exactly one module on the bus. */
    lemma SelectionIsExact(p: nat)
      requires Valid() && p < PORTS
      requires bus.root == SetBit(0, p / 8) && bus.sub[p / 8] == SetBit(0, p % 8)
      ensures bus.OnlyVisible(p)
    {
      forall q: nat | q < PORTS ensures bus.Visible(q) <==> q == p {
        OneBit(p / 8, q / 8);
        OneBit(p % 8, q % 8);
      }
    }

    /**
     A pending transmit-disable byte goes out, and is no longer pending, even if every attempt to write it
     failed: then it is lost.
     */
    method UpdateTx(p: nat) returns (ghost tx: Option<Sent>)
      requires Valid() && Genuine() && p < PORTS && bus.OnlyVisible(p)
      modifies txUpdate, bus`modules, bus`faults, bus`history, bus`events
      ensures Valid() && Genuine() && old(bus.history) <= bus.history && bus.faults >= old(bus.faults) && !txUpdate[p]
      ensures forall q: nat :: q < PORTS && q != p ==>
                txUpdate[q] == old(txUpdate[q]) && bus.modules[q] == old(bus.modules[q])
      ensures if old(txUpdate[p]) then tx.Some? && tx.value.value == txData[p] && tx.value.fails <= 3 else tx.None?
      ensures bus.events == old(bus.events) + TxEvents(tx)
      ensures bus.modules[p] == if old(txUpdate[p]) && tx.value.fails < 3
                                then Patch(old(bus.modules[p]), 86, txData[p])
                                else old(bus.modules[p])
      ensures bus.faults == old(bus.faults) && tx.Some? ==> tx.value.fails == 0
    {
      tx := None;
      if txUpdate[p] {
        ghost var fails;
        var status;
        status, fails := WriteTxDisable(p);
        txUpdate[p] := false;
        tx := Some(Sent(txData[p], fails));
      }
    }

    /** The image is copied, and the valid bit set, exactly when none of the eight reads failed. */
    method FetchImage(p: nat) returns (ghost statuses: seq<int>)
      requires Valid() && Genuine() && p < PORTS && bus.OnlyVisible(p)
      modifies validWords, a0, bus`faults, bus`events, this`polled
      ensures Valid() && Genuine() && bus.faults >= old(bus.faults)
      ensures forall q: nat :: q < PORTS && q != p ==>
                (ValidBit(q) <==> old(ValidBit(q))) && a0[q] == old(a0[q])
      ensures bus.events == old(bus.events) + BlockEvents(statuses) && Legitimate(statuses)
      ensures Complete(statuses) ==> ValidBit(p) && a0[p] == Received(bus.modules[p], statuses)
      ensures !Complete(statuses) ==> ValidBit(p) == old(ValidBit(p)) && a0[p] == old(a0[p])
      ensures polled == if Complete(statuses) then old(polled)[p := Poll(bus.modules[p], statuses)] else old(polled)
      ensures bus.faults == old(bus.faults) ==> WholeBlocks(statuses)
    {
      var ret, image;
      ret, image, statuses := BlockRead(p);
      if ret >= 0 {
        polled := polled[p := Poll(bus.modules[p], statuses)];
        a0[p] := image;
        SetValid(p, true);
      }
    }

    /**
     A present port: select it, bring its transmit-disable byte up to date, read it, deselect. A pending byte
     stays pending exactly when the port was not selected, and is lost exactly when it was and all three
     attempts failed; the image and the valid bit stay as they were unless all eight blocks came back.
     */
    method PollPort(p: nat) returns (ghost visit: Visit)
      requires Valid() && Genuine() && p < PORTS && bus.root == SetBit(0, p / 8)
      modifies validWords, a0, txUpdate, this`polled
      modifies bus`sub, bus`modules, bus`faults, bus`history, bus`events
      ensures Valid() && Genuine() && bus.faults >= old(bus.faults)
      ensures forall q: nat :: q < PORTS && q != p ==> Port(q) == old(Port(q))
      ensures visit.port == p && !visit.Absent?
      ensures visit.Unselected? ==>
                && bus.events == old(bus.events) + [Sub(p / 8, SetBit(0, p % 8), false), Sub(p / 8, 0, visit.released)]
                && Port(p) == old(Port(p)) && polled == old(polled)
      ensures visit.Polled? ==>
                bus.events == old(bus.events) + [Sub(p / 8, SetBit(0, p % 8), true)] + TxEvents(visit.tx)
                              + BlockEvents(visit.statuses) + [Sub(p / 8, 0, visit.released)]
      ensures visit.Polled? ==> !txUpdate[p] && (visit.tx.Some? <==> old(txUpdate[p]))
      ensures visit.Polled? && old(txUpdate[p]) ==> visit.tx.value.value == txData[p] && visit.tx.value.fails <= 3
      ensures visit.Polled? ==>
                bus.modules[p] == if old(txUpdate[p]) && visit.tx.value.fails < 3
                                  then Patch(old(bus.modules[p]), 86, txData[p])
                                  else old(bus.modules[p])
      ensures visit.Polled? && Complete(visit.statuses) ==>
                ValidBit(p) && a0[p] == Received(bus.modules[p], visit.statuses)
      ensures visit.Polled? && !Complete(visit.statuses) ==>
                ValidBit(p) == old(ValidBit(p)) && a0[p] == old(a0[p]) && polled[p] == old(polled[p])
      ensures visit.Polled? ==> Legitimate(visit.statuses)
      ensures bus.faults == old(bus.faults) ==> Flawless(visit)
    {
      hide BlockEvents, TxEvents, Received, Legitimate, Complete, WholeBlocks, Zeros, SetBit, FromPoll;
      var ret := bus.WriteSub(p / 8, SetBit(0, p % 8));
      visit := Unselected(p, false);
      if ret >= 0 {
        SelectionIsExact(p);
        ghost var tx := UpdateTx(p);
        ghost var statuses := FetchImage(p);
        visit := Polled(p, tx, statuses, false);
      }
      ret := bus.WriteSub(p / 8, 0);
      visit := visit.(released := ret >= 0);
    }

    /** An absent port: forget its image. */
    method ClearPort(p: nat)
      requires Valid() && Genuine() && p < PORTS
      modifies validWords, a0, txUpdate
      ensures Valid() && Genuine()
      ensures forall q: nat :: q < PORTS && q != p ==> Port(q) == old(Port(q))
      ensures Served(false, old(Port(p)), Port(p), txData[p])
    {
      a0[p] := Zeros();
      SetValid(p, false);
      txUpdate[p] := true;
    }

    method ServePort(p: nat, present: bool) returns (ghost visit: Visit)
      requires Valid() && Genuine() && p < PORTS && (present ==> bus.root == SetBit(0, p / 8))
      modifies validWords, a0, txUpdate, this`polled
      modifies bus`sub, bus`modules, bus`faults, bus`history, bus`events
      ensures Valid() && Genuine() && bus.faults >= old(bus.faults)
      ensures forall q: nat :: q < PORTS && q != p ==> Port(q) == old(Port(q))
      ensures visit.port == p && (visit.Absent? <==> !present) && bus.events == old(bus.events) + Trace(visit)
      ensures Outcome(visit, old(Port(p)), Port(p), txData[p])
      ensures bus.faults == old(bus.faults) ==> Flawless(visit)
    {
      hide BlockEvents, TxEvents, Received, Legitimate, Complete, WholeBlocks, SetBit, FromPoll;
      if present {
        visit := PollPort(p);
      } else {
        ClearPort(p);
        visit := Absent(p);
      }
    }

    /** Serves the eight ports of a group once the root channel is selected, or clears them all. */
    method ServeGroup(g: nat, present: bool) returns (ghost done: seq<Visit>)
      requires Valid() && Genuine() && g < 4
      requires if present then bus.root == SetBit(0, g) else forall p: nat :: g * 8 <= p < g * 8 + 8 ==> !Present(p)
      modifies validWords, a0, txUpdate, this`polled
      modifies bus`sub, bus`modules, bus`faults, bus`history, bus`events
      ensures Valid() && Genuine() && bus.faults >= old(bus.faults)
      ensures |done| == 8 && Ports(done) == Group(g) && bus.events == old(bus.events) + Traces(done)
      ensures forall q: nat :: q < PORTS && q / 8 != g ==> Port(q) == old(Port(q))
      ensures forall p: nat :: g * 8 <= p < g * 8 + 8 ==>
                && (done[p - g * 8].Absent? <==> !Present(p))
                && Outcome(done[p - g * 8], old(Port(p)), Port(p), txData[p])
      ensures bus.faults == old(bus.faults) ==> forall v :: v in done ==> Flawless(v)
    {
      hide Flawless, Outcome, Trace, Poller.Genuine;
      var i := 0;
      done := [];
      while i < 8
        invariant i <= 8 && Valid() && Genuine() && bus.faults >= old(bus.faults)
        invariant |done| == i && Ports(done) == Group(g)[..i] && bus.events == old(bus.events) + Traces(done)
        invariant forall q: nat :: q < PORTS && !(g * 8 <= q < g * 8 + i) ==> Port(q) == old(Port(q))
        invariant forall p: nat :: g * 8 <= p < g * 8 + i ==>
                    && (done[p - g * 8].Absent? <==> !Present(p))
                    && Outcome(done[p - g * 8], old(Port(p)), Port(p), txData[p])
        invariant bus.faults == old(bus.faults) ==> forall v :: v in done ==> Flawless(v)
      {
        var p := g * 8 + i;
        ghost var visit := ServePort(p, present && Present(p));
        assert (done + [visit])[..i] == done;
        assert Ports(done + [visit]) == Group(g)[..i + 1];
        done := done + [visit];
        i := i + 1;
      }
    }

    /** Step 0: sample the absence lines. */
    method SampleAbsence() returns (ok: bool)
      requires Valid()
      modifies this`absStatus, bus`root, bus`faults, bus`events
      ensures Valid() && bus.faults >= old(bus.faults)
      ensures bus.events == old(bus.events) + [Root(4, ok)]
                            + if ok then [Absence(0, absStatus[0]), Absence(1, absStatus[1])] else []
      ensures !ok ==> absStatus == old(absStatus)
      ensures bus.faults == old(bus.faults) ==> ok && absStatus == bus.absent
    {
      var ret := bus.SelectRoot(4);
      if ret < 0 {
        return false;
      }
      var first := bus.ReadAbsence(0);
      var second := bus.ReadAbsence(1);
      absStatus := [first, second];
      return true;
    }

    /** Steps 1 to 4: one group of eight ports. Its channel is selected if one of them is present. */
    method GroupStep(g: nat) returns (ok: bool, ghost done: seq<Visit>)
      requires Valid() && Genuine() && g < 4
      modifies this`polled, validWords, a0, txUpdate
      modifies bus`root, bus`sub, bus`modules, bus`faults, bus`history, bus`events
      ensures Valid() && Genuine() && bus.faults >= old(bus.faults)
      ensures bus.events == old(bus.events)
                            + (if AnyPresent(g) then [Root(g, ok)] else []) + Traces(done)
      ensures !ok ==> done == [] && AnyPresent(g)
      ensures ok ==> |done| == 8 && Ports(done) == Group(g)
      ensures forall q: nat :: q < PORTS && (q / 8 != g || !ok) ==> Port(q) == old(Port(q))
      ensures ok ==> forall p: nat :: p < PORTS && p / 8 == g ==>
                && (done[p % 8].Absent? <==> !Present(p))
                && Outcome(done[p % 8], old(Port(p)), Port(p), txData[p])
      ensures bus.faults == old(bus.faults) ==> ok && forall v :: v in done ==> Flawless(v)
    {
      hide Flawless, Outcome, Trace;
      var word, from := absStatus[g / 2], 8 * (g % 2);
      if !AllSet(word, from, 8) {
        assert AnyPresent(g) by {
          var i :| from <= i < from + 8 && !TestBit(word, i);
          assert Present(16 * (g / 2) + i);
        }
        var ret := bus.SelectRoot(g);
        if ret < 0 {
          assert Traces([]) == [];
          return false, [];
        }
        done := ServeGroup(g, true);
      } else {
        forall p: nat | g * 8 <= p < g * 8 + 8 ensures !Present(p) {
          assert from <= p % 16 < from + 8;
        }
        done := ServeGroup(g, false);
      }
      return true, done;
    }

    /** Step 5: the fan and front LEDs. */
    method LedStep() returns (ok: bool)
      requires Valid()
      modifies bus`root, bus`faults, bus`events
      ensures Valid() && bus.faults >= old(bus.faults)
      ensures ok ==> bus.events == old(bus.events) + [Root(7, true), Leds(true)]
      ensures !ok ==> (|| bus.events == old(bus.events) + [Root(7, false)]
                       || bus.events == old(bus.events) + [Root(7, true), Leds(false)])
      ensures bus.faults == old(bus.faults) ==> ok
    {
      var ret := bus.SelectRoot(7);
      if ret < 0 {
        return false;
      }
      ret := bus.WriteLeds();
      return ret >= 0;
    }

    /**
     One turn of the thread. A failed root selection or LED write leaves the step as it is; otherwise the
     step is 1, 2, 3, 4 after the one before it, and after 4 it is 5 or, with a BMC, 0.
     */
    method Turn() returns (ghost ok: bool, ghost done: seq<Visit>)
      requires Valid() && Genuine() && step <= 5
      modifies this`step, this`absStatus, this`visits, this`polled, validWords, a0, txUpdate
      modifies bus`root, bus`sub, bus`modules, bus`faults, bus`history, bus`events
      ensures Valid() && Genuine() && step <= 5 && bus.faults >= old(bus.faults)
      ensures step == if !ok then old(step)
                      else if old(step) == 5 || (old(step) == 4 && bmc) then 0 else old(step) + 1
      ensures visits == old(visits) + done && Ports(done) == if ok then Visited(old(step)) else []
      ensures old(step) == 0 ==>
                bus.events == old(bus.events) + [Root(4, ok)]
                              + if ok then [Absence(0, absStatus[0]), Absence(1, absStatus[1])] else []
      ensures 1 <= old(step) <= 4 ==>
                bus.events == old(bus.events)
                              + (if AnyPresent(old(step) - 1) then [Root(old(step) - 1, ok)] else []) + Traces(done)
      ensures old(step) == 5 && ok ==> bus.events == old(bus.events) + [Root(7, true), Leds(true)]
      ensures old(step) == 5 && !ok ==> (|| bus.events == old(bus.events) + [Root(7, false)]
                                         || bus.events == old(bus.events) + [Root(7, true), Leds(false)])
      ensures old(step) != 0 || !ok ==> absStatus == old(absStatus)
      ensures forall q: nat :: q < PORTS && (q / 8 != old(step) - 1 || !ok) ==> Port(q) == old(Port(q))
      ensures ok ==> forall p: nat :: p < PORTS && p / 8 == old(step) - 1 ==>
                && (done[p % 8].Absent? <==> !Present(p))
                && Outcome(done[p % 8], old(Port(p)), Port(p), txData[p])
      ensures bus.faults == old(bus.faults) ==>
                && ok
                && (old(step) == 0 ==> absStatus == bus.absent)
                && forall v :: v in done ==> Flawless(v)
    {
      hide Flawless, Outcome, Traces, Trace, Ports, Poller.AnyPresent;
      done := [];
      if step == 0 {
        var sampled := SampleAbsence();
        ok := sampled;
        if sampled {
          step := 1;
        }
      } else if step <= 4 {
        var served;
        served, done := GroupStep(step - 1);
        ok, visits := served, visits + done;
        if served {
          step := if step < 4 then step + 1 else if !bmc then 5 else 0;
        }
      } else {
        var shown := LedStep();
        ok := shown;
        if shown {
          step := 0;
        }
      }
    }

    /** A turn in which no operation fails serves its ports by their presence. */
    method FlawlessTurn() returns (ghost done: seq<Visit>)
      requires Valid() && Genuine() && step <= 5
      modifies this`step, this`absStatus, this`visits, this`polled, validWords, a0, txUpdate
      modifies bus`root, bus`sub, bus`modules, bus`faults, bus`history, bus`events
      ensures Valid() && Genuine() && step <= 5 && bus.faults >= old(bus.faults) && visits == old(visits) + done
      ensures bus.faults == old(bus.faults) ==>
                && step == NextStep(old(step), bmc) && Ports(done) == Visited(old(step))
                && absStatus == (if old(step) == 0 then bus.absent else old(absStatus))
                && (forall q: nat :: q < PORTS && q / 8 != old(step) - 1 ==> Port(q) == old(Port(q)))
                && forall q: nat :: q < PORTS && q / 8 == old(step) - 1 ==>
                     Served(Present(q), old(Port(q)), Port(q), txData[q])
    {
      hide Poller.Genuine, Poller.AnyPresent, Outcome, Served, Flawless, Traces, Trace, Ports;
      ghost var ok;
      ok, done := Turn();
      if bus.faults == old(bus.faults) {
        forall q: nat | q < PORTS && q / 8 == old(step) - 1
          ensures Served(Present(q), old(Port(q)), Port(q), txData[q])
        {
          FlawlessServes(done[q % 8], old(Port(q)), Port(q), txData[q]);
        }
      }
    }

    /**
     A whole cycle, modules staying put: unless an operation fails, it serves every port once, in
     order, on the absence lines sampled at its start.
     */
    method FullCycle()
      requires Valid() && Genuine() && step == 0
      modifies this`step, this`absStatus, this`visits, this`polled, validWords, a0, txUpdate
      modifies bus`root, bus`sub, bus`modules, bus`faults, bus`history, bus`events
      ensures Valid() && Genuine() && bus.faults >= old(bus.faults)
      ensures bus.faults == old(bus.faults) ==>
                && step == 0 && Ports(visits) == Ports(old(visits)) + AllPorts()
                && forall q: nat :: q < PORTS ==>
                     var present := !TestBit(bus.absent[q / 16], q % 16);
                     ShowPortAbs(q) == present && Served(present, old(Port(q)), Port(q), txData[q])
    {
      hide Poller.Genuine, Served, Ports, Visited, AllPorts, PortsBefore;
      var turns := if bmc then 5 else 6;
      var i := 0;
      AllPortsSplit(0);
      while i < turns
        invariant i <= turns && Valid() && Genuine() && step <= 5 && bus.faults >= old(bus.faults)
        invariant bus.faults == old(bus.faults) ==>
                    && step == (if i == turns then 0 else i)
                    && (i > 0 ==> absStatus == bus.absent)
                    && Ports(visits) == Ports(old(visits)) + AllPorts()[..PortsBefore(i)]
        invariant bus.faults == old(bus.faults) ==>
                    forall q: nat :: q < PORTS && q / 8 < i - 1 ==> Served(Present(q), old(Port(q)), Port(q), txData[q])
        invariant bus.faults == old(bus.faults) ==>
                    forall q: nat :: q < PORTS && q / 8 >= i - 1 ==> Port(q) == old(Port(q))
      {
        AllPortsSplit(i);
        ghost var was := visits;
        ghost var done := FlawlessTurn();
        PortsAppend(was, done);
        i := i + 1;
      }
      if bus.faults == old(bus.faults) {
        forall q: nat | q < PORTS
          ensures var present := !TestBit(bus.absent[q / 16], q % 16);
                  ShowPortAbs(q) == present && Served(present, old(Port(q)), Port(q), txData[q])
        {
          assert Served(Present(q), old(Port(q)), Port(q), txData[q]);
          ServedIsShown(Present(q), old(Port(q)), Port(q), txData[q]);
        }
      }
    }

    /**
     The thread, turn by turn, while modules come and go and operations fail as they like. `rounds`
     counts the completed rounds: each serves all the ports once, in order.
     */
    method Thread(env: seq<Surroundings>) returns (ghost rounds: nat)
      requires Valid() && Genuine() && step == 0 && visits == []
      requires forall e :: e in env ==> e.Valid()
      modifies this`step, this`absStatus, this`visits, this`polled, validWords, a0, txUpdate, bus
      ensures Valid() && Genuine() && step <= 5
      ensures Ports(visits) == VisitsAt(rounds, step)
      ensures |polled| == PORTS
      ensures forall p: nat :: p < PORTS && ShowPortAbs(p) ==> FromPoll(bus.history, p, a0[p], polled[p])
      ensures forall p: nat :: p < PORTS && ShowPortAbs(p) && WholeBlocks(polled[p].counts) ==>
                (p, a0[p]) in bus.history
    {
      hide Poller.AnyPresent, Outcome, Flawless, Traces, Trace, Ports;
      rounds := 0;
      assert Ports([]) == [];
      for i := 0 to |env|
        invariant Valid() && Genuine() && step <= 5
        invariant Ports(visits) == VisitsAt(rounds, step)
      {
        assert env[i] in env;
        bus.Meanwhile(env[i].modules, env[i].absent);
        ghost var before := step;
        VisitsGrow(rounds, before, bmc);
        ghost var was := visits;
        ghost var _, done := Turn();
        PortsAppend(was, done);
        if before == 4 && step != 4 {
          rounds := rounds + 1;
        }
      }
      forall p: nat | p < PORTS && ShowPortAbs(p) && WholeBlocks(polled[p].counts)
        ensures (p, a0[p]) in bus.history
      {
        ReceivedIsImageIff(polled[p].image, polled[p].counts);
      }
    }
  }

  /** What a turn finds: the modules plugged in and the absence lines. */
  datatype Surroundings = Surroundings(modules: seq<seq<byte>>, absent: seq<nat>) {
    predicate Valid() {
      |modules| == PORTS && |absent| == 2 && forall p: nat :: p < PORTS ==> |modules[p]| == IMAGE_SIZE
    }
  }

  function AllPorts(): (ps: seq<nat>)
    ensures |ps| == PORTS
  {
    seq<nat>(PORTS, i requires 0 <= i < PORTS => i)
  }

  /** How many ports of the current round have been served before a step. */
  function PortsBefore(step: nat): (n: nat)
    ensures n <= PORTS
  {
    if 2 <= step <= 4 then 8 * (step - 1) else if step > 4 then PORTS else 0
  }

  function Rounds(n: nat): seq<nat> {
    if n == 0 then [] else Rounds(n - 1) + AllPorts()
  }

  /** The visits after so many complete rounds and at this step of the next one. */
  function VisitsAt(rounds: nat, step: nat): seq<nat> {
    Rounds(rounds) + if step <= 4 then AllPorts()[..PortsBefore(step)] else []
  }

  lemma VisitsGrow(rounds: nat, step: nat, bmc: bool)
    requires step <= 5
    ensures VisitsAt(rounds, step) + Visited(step)
         == VisitsAt(if step == 4 then rounds + 1 else rounds, NextStep(step, bmc))
  {
  }

  lemma AllPortsSplit(step: nat)
    ensures AllPorts()[..PortsBefore(step)] + Visited(step) == AllPorts()[..PortsBefore(step + 1)]
    ensures AllPorts()[..PortsBefore(0)] == []
    ensures AllPorts()[..PortsBefore(5)] == AllPorts()[..PortsBefore(6)] == AllPorts()
  {
  }

  function NextStep(step: nat, bmc: bool): nat {
    if step < 4 then step + 1 else if step == 4 && !bmc then 5 else 0
  }

  /** The ports that a step serves. */
  function Visited(step: nat): seq<nat> {
    if 1 <= step <= 4 then Group(step - 1) else []
  }

  /** The ports of a group, in the order they are served. */
  function Group(g: nat): (ps: seq<nat>)
    ensures |ps| == 8
  {
    seq<nat>(8, i requires 0 <= i < 8 => g * 8 + i)
  }
}
