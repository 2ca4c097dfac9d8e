/** Registration of the AS4610 LED class devices, all or none. */
module As4610Probe {
  import opened Bits

  const NUM_OF_LED := 13

  /** One call of the kernel's LED class, as it went. */
  datatype Call = Up(led: nat, ret: int) | Down(led: nat)

  /** The kernel's LED class: a registration may fail, and only registered LEDs may be unregistered. */
  class LedClass {
    var registered: set<nat>
    /** All calls so far, in order. */
    ghost var calls: seq<Call>

    method Register(led: nat) returns (ret: int)
      requires led !in registered
      modifies this
      ensures ret <= 0
      ensures registered == if ret >= 0 then old(registered) + {led} else old(registered)
      ensures calls == old(calls) + [Up(led, ret)]
    {
      ret :| -4096 < ret <= 0;
      if ret >= 0 {
        registered := registered + {led};
      }
      calls := calls + [Up(led, ret)];
    }

    method Unregister(led: nat)
      requires led in registered
      modifies this
      ensures registered == old(registered) - {led}
      ensures calls == old(calls) + [Down(led)]
    {
      registered := registered - {led};
      calls := calls + [Down(led)];
    }

    /**
     Registers what the map names, in order, up to the first failure; after it unregisters, in reverse, what
     was registered. `stop` is where it failed.
     */
    method Probe(ledMap: nat) returns (ret: int, ghost stop: nat)
      requires registered == {}
      modifies this
      ensures ret <= 0 && stop <= 13 && (ret == 0 <==> stop == 13)
      ensures ret < 0 ==> TestBit(ledMap, stop)
      ensures registered == if ret == 0 then Among(ledMap, 13) else {}
      ensures calls == old(calls) + Ups(ledMap, stop) + if ret < 0 then [Up(stop, ret)] + Downs(ledMap, stop) else []
    {
      ret, stop := 0, NUM_OF_LED;
      var i := 0;
      while i < NUM_OF_LED
        invariant 0 <= i <= NUM_OF_LED && ret == 0
        invariant registered == Among(ledMap, i) && calls == old(calls) + Ups(ledMap, i)
      {
        if TestBit(ledMap, i) {
          ret := Register(i);
          if ret < 0 {
            break;
          }
        }
        i := i + 1;
      }
      if ret >= 0 {
        return 0, stop;
      }
      stop := i;
      ghost var failed := calls;
      assert failed == old(calls) + Ups(ledMap, stop) + [Up(stop, ret)];
      i := i - 1;
      while i >= 0
        invariant -1 <= i < stop
        invariant registered == Among(ledMap, i + 1) && failed + Downs(ledMap, stop) == calls + Downs(ledMap, i + 1)
        decreases i + 1
      {
        if TestBit(ledMap, i) {
          Unregister(i);
        }
        i := i - 1;
      }
      assert calls == failed + Downs(ledMap, stop);
    }

    method Remove(ledMap: nat)
      requires registered == Among(ledMap, NUM_OF_LED)
      modifies this
      ensures registered == {}
      ensures old(calls) <= calls && forall c :: c in calls[|old(calls)|..] ==> c.Down?
      ensures forall led: nat :: Down(led) in calls[|old(calls)|..] <==> led < 13 && TestBit(ledMap, led)
    {
      for i := 0 to NUM_OF_LED
        invariant registered == Among(ledMap, NUM_OF_LED) - Among(ledMap, i)
        invariant old(calls) <= calls && forall c :: c in calls[|old(calls)|..] ==> c.Down?
        invariant forall led: nat :: Down(led) in calls[|old(calls)|..] <==> led < i && TestBit(ledMap, led)
      {
        if TestBit(ledMap, i) {
          ghost var before := calls[|old(calls)|..];
          Unregister(i);
          assert calls[|old(calls)|..] == before + [Down(i)];
        }
      }
    }
  }

  /** The LEDs that the map names among the first `n`. */
  function Among(ledMap: nat, n: nat): set<nat> {
    set k: nat | k < n && TestBit(ledMap, k)
  }

  /** Their registrations in order, and their removals in reverse. */
  function Ups(ledMap: nat, n: nat): seq<Call> {
    if n == 0 then [] else Ups(ledMap, n - 1) + if TestBit(ledMap, n - 1) then [Up(n - 1, 0)] else []
  }

  function Downs(ledMap: nat, n: nat): seq<Call> {
    if n == 0 then [] else (if TestBit(ledMap, n - 1) then [Down(n - 1)] else []) + Downs(ledMap, n - 1)
  }
}
