/**
 The memory map of a paged transceiver: what the module shows at its I2C addresses,
 and the linear address space the driver builds on top of it.

 A one-address module (QSFP, CMIS) answers at 0x50 with a 128-byte lower half and an upper
 half that shows one of 256 pages, the one named by the page-select byte 127.
 A two-address module (SFP) answers at 0x50 with 256 plain bytes and at 0x51 in the paged way.
 */
module OptoeMap {
  import opened Basics

  const PAGE_SIZE := 128
  const ARCH_PAGES := 256
  const ONE_ADDR_SIZE := (1 + 256) * 128
  const ONE_ADDR_UNPAGED_SIZE := 2 * 128
  const TWO_ADDR_SIZE := (3 + 256) * 128
  const TWO_ADDR_UNPAGED_SIZE := 4 * 128
  const TWO_ADDR_NO_0X51_SIZE := 2 * 128
  const PAGE_SELECT_REG := 127

  datatype DevClass = OneAddr | TwoAddr | Cmis

  /** Everything the module stores; page `p` is `upper[128*p .. 128*p+128]`. */
  datatype Image = Image(a0: seq<byte>, lower: seq<byte>, upper: seq<byte>) {
    predicate Valid() {
      |a0| == 256 && |lower| == PAGE_SIZE && |upper| == 256 * 128
    }

    /** The page register is an ordinary cell of the lower half. */
    function PageReg(): byte
      requires Valid()
    {
      lower[PAGE_SELECT_REG]
    }

    function WithReg(r: byte): (m: Image)
      requires Valid()
      ensures m.Valid() && m.PageReg() == r
    {
      this.(lower := lower[PAGE_SELECT_REG := r])
    }
  }

  // ----- What the module answers at one I2C address ------------------------------------------

  predicate Flat256(cls: DevClass, client: int) {
    cls.TwoAddr? && client == 0
  }

  function View(img: Image, cls: DevClass, client: int, reg: nat): byte
    requires img.Valid() && reg < 256
  {
    if Flat256(cls, client) then img.a0[reg]
    else if reg < PAGE_SIZE then img.lower[reg]
    else img.upper[img.PageReg() * 128 + reg - PAGE_SIZE]
  }

  function Store(img: Image, cls: DevClass, client: int, reg: nat, v: byte): (m: Image)
    requires img.Valid() && reg < 256
    ensures m.Valid()
  {
    if Flat256(cls, client) then img.(a0 := img.a0[reg := v])
    else if reg < PAGE_SIZE then img.(lower := img.lower[reg := v])
    else img.(upper := img.upper[img.PageReg() * 128 + reg - PAGE_SIZE := v])
  }

  /** Consecutive registers, read with the module's own address increment. */
  function ViewRange(img: Image, cls: DevClass, client: int, reg: nat, n: nat): (d: seq<byte>)
    requires img.Valid() && reg + n <= 256
    ensures |d| == n
  {
    seq<byte>(n, i requires 0 <= i < n => View(img, cls, client, reg + i))
  }

  function StoreAll(img: Image, cls: DevClass, client: int, reg: nat, d: seq<byte>): (m: Image)
    requires img.Valid() && reg + |d| <= 256
    ensures m.Valid()
  {
    if d == [] then img
    else
      var k := |d| - 1;
      Store(StoreAll(img, cls, client, reg, d[..k]), cls, client, reg + k, d[k])
  }

  lemma StoreAllAppend(img: Image, cls: DevClass, client: int, reg: nat, d: seq<byte>, e: seq<byte>)
    requires img.Valid() && reg + |d| + |e| <= 256
    ensures StoreAll(img, cls, client, reg, d + e)
         == StoreAll(StoreAll(img, cls, client, reg, d), cls, client, reg + |d|, e)
  {
    if e == [] {
      assert d + e == d;
    } else {
      var k := |e| - 1;
      assert (d + e)[..|d| + k] == d + e[..k];
      StoreAllAppend(img, cls, client, reg, d, e[..k]);
    }
  }

  // ----- The linear address space ------------------------------------------------------------

  function Size(cls: DevClass): nat {
    if cls.TwoAddr? then TWO_ADDR_SIZE else ONE_ADDR_SIZE
  }

  /** The documented linear map: plain bytes (SFP only), lower half, then all the pages in order. */
  function Flat(img: Image, cls: DevClass): (f: seq<byte>)
    requires img.Valid()
    ensures |f| == Size(cls)
  {
    (if cls.TwoAddr? then img.a0 else []) + img.lower + img.upper
  }

  /** Where the lower half of the paged address starts in the linear space. */
  function Base(cls: DevClass): nat {
    if cls.TwoAddr? then 256 else 0
  }

  /** The linear offset of the page-select byte: 127, or 383 for SFP. */
  function SelectOffset(cls: DevClass): nat {
    Base(cls) + PAGE_SELECT_REG
  }

  /** The linear offsets of upper page 0, the one page the driver never selects. */
  predicate InPageZero(cls: DevClass, off: int) {
    Base(cls) + PAGE_SIZE <= off < Base(cls) + 2 * 128
  }

  datatype Location = Location(client: int, page: int, phys: int)

  /** A location in normal form: page 0 for everything that is not paged. */
  predicate Normal(cls: DevClass, loc: Location) {
    if Flat256(cls, loc.client) then loc.page == 0 && 0 <= loc.phys < 256
    else
      && loc.client == (if cls.TwoAddr? then 1 else 0)
      && 0 <= loc.phys < 256
      && 0 <= loc.page < ARCH_PAGES
      && (loc.phys < PAGE_SIZE ==> loc.page == 0)
  }

  /** The linear offset a location stands for. */
  function LinearOf(cls: DevClass, loc: Location): int {
    (if loc.client == 1 then 256 else 0) + loc.page * 128 + loc.phys
  }

  function Locate(cls: DevClass, off: nat): (loc: Location)
    requires off < Size(cls)
    ensures 0 <= loc.page < 256 && 0 <= loc.phys < 256
  {
    var client := if cls.TwoAddr? && off > 255 then 1 else 0;
    var o := if client == 1 then off - 256 else off;
    if o < PAGE_SIZE then Location(client, 0, o)
    else Location(client, o / 128 - 1, PAGE_SIZE + o % 128)
  }

  /** Translation is a bijection between linear offsets and normal-form locations: one way ... */
  lemma LocateIsNormal(cls: DevClass, off: nat)
    requires off < Size(cls)
    ensures Normal(cls, Locate(cls, off)) && LinearOf(cls, Locate(cls, off)) == off
  {
  }

  /** ... and the other way. */
  lemma TranslationBijection(cls: DevClass, loc: Location)
    requires Normal(cls, loc)
    ensures 0 <= LinearOf(cls, loc) < Size(cls)
    ensures Locate(cls, LinearOf(cls, loc)) == loc
  {
  }

  /** Inside one 128-byte block only the physical offset moves. */
  lemma LocateInBlock(cls: DevClass, off: nat, k: nat)
    requires off + k < Size(cls) && off % 128 + k < PAGE_SIZE
    ensures var loc := Locate(cls, off);
            Locate(cls, off + k) == loc.(phys := loc.phys + k)
    ensures Locate(cls, off).phys % 128 == off % 128
  {
  }

  // ----- What one driver access does to one linear byte --------------------------------------

  /** The page is selected only when it is not 0: a page-0 access takes whatever page is live. */
  function Selected(img: Image, page: int): (m: Image)
    requires img.Valid() && 0 <= page < ARCH_PAGES
    ensures m.Valid()
  {
    if page > 0 then img.WithReg(page) else img
  }

  /** ... and the register is put back to 0 only when it had been selected. */
  function Restored(img: Image, page: int): (m: Image)
    requires img.Valid()
    ensures m.Valid()
  {
    if page > 0 then img.WithReg(0) else img
  }

  /** `b` is `a`, but for the page register. */
  predicate SameButRegister(a: Image, b: Image) {
    a.Valid() && b.Valid() && b == a.WithReg(b.PageReg())
  }

  lemma SameButRegisterTrans(a: Image, b: Image, c: Image)
    requires SameButRegister(a, b) && SameButRegister(b, c)
    ensures SameButRegister(a, c)
  {
  }

  lemma WithRegIsSameButRegister(a: Image, r: byte)
    requires a.Valid()
    ensures SameButRegister(a, a) && SameButRegister(a, a.WithReg(r)) && SameButRegister(a.WithReg(r), a)
  {
  }

  /** A one-byte transfer to the page-select register of a paged address. */
  lemma StoreSelects(img: Image, cls: DevClass, client: int, page: byte)
    requires img.Valid() && !Flat256(cls, client)
    ensures StoreAll(img, cls, client, PAGE_SELECT_REG, [page]) == img.WithReg(page)
  {
  }

  function Peek(img: Image, cls: DevClass, off: nat): byte
    requires img.Valid() && off < Size(cls)
  {
    var loc := Locate(cls, off);
    View(Selected(img, loc.page), cls, loc.client, loc.phys)
  }

  function PeekRange(img: Image, cls: DevClass, off: nat, n: nat): (d: seq<byte>)
    requires img.Valid() && off + n <= Size(cls)
    ensures |d| == n
  {
    seq<byte>(n, i requires 0 <= i < n => Peek(img, cls, off + i))
  }

  function Poke(img: Image, cls: DevClass, off: nat, v: byte): (m: Image)
    requires img.Valid() && off < Size(cls)
    ensures m.Valid()
  {
    var loc := Locate(cls, off);
    var paged := loc.page > 0;
    if Flat256(cls, loc.client) then img.(a0 := img.a0[loc.phys := v])
    else if loc.phys < PAGE_SIZE then img.(lower := img.lower[loc.phys := v])
    else
      var page := if paged then loc.page else img.PageReg();
      Image(img.a0, if paged then img.lower[PAGE_SELECT_REG := 0] else img.lower,
            img.upper[page * 128 + loc.phys - PAGE_SIZE := v])
  }

  function PokeAll(img: Image, cls: DevClass, off: nat, d: seq<byte>): (m: Image)
    requires img.Valid() && off + |d| <= Size(cls)
    ensures m.Valid()
  {
    if d == [] then img
    else
      var k := |d| - 1;
      Poke(PokeAll(img, cls, off, d[..k]), cls, off + k, d[k])
  }

  /** Two adjacent writes leave exactly the memory that one write of both pieces leaves. */
  lemma PokeAllAppend(img: Image, cls: DevClass, off: nat, d: seq<byte>, e: seq<byte>)
    requires img.Valid() && off + |d| + |e| <= Size(cls)
    ensures PokeAll(img, cls, off, d + e) == PokeAll(PokeAll(img, cls, off, d), cls, off + |d|, e)
  {
    hide Poke, Size;
    if e == [] {
      assert d + e == d;
    } else {
      var k := |e| - 1;
      assert (d + e)[..|d| + k] == d + e[..k];
      PokeAllAppend(img, cls, off, d, e[..k]);
    }
  }

  // ----- Reads see the flat array ------------------------------------------------------------

  /** What an access sees: the flat array, except that page 0 is really the live page. */
  lemma PeekMeaning(img: Image, cls: DevClass, off: nat)
    requires img.Valid() && off < Size(cls)
    ensures Peek(img, cls, off) ==
            Flat(img, cls)[if InPageZero(cls, off) then off + img.PageReg() * 128 else off]
  {
  }

  /** With the page register at 0 a run of accesses is a slice of the flat array. */
  lemma PeekRangeIsFlatSlice(img: Image, cls: DevClass, off: nat, n: nat)
    requires img.Valid() && off + n <= Size(cls) && img.PageReg() == 0
    ensures PeekRange(img, cls, off, n) == Flat(img, cls)[off..off + n]
  {
    forall i | 0 <= i < n
      ensures PeekRange(img, cls, off, n)[i] == Flat(img, cls)[off + i]
    {
      PeekMeaning(img, cls, off + i);
    }
  }

  /** Every access sees the flat array exactly when the live page holds what page 0 holds. */
  lemma LivePageDecidesReads(img: Image, cls: DevClass)
    requires img.Valid()
    ensures var live := img.PageReg() * 128;
            (forall off :: 0 <= off < Size(cls) ==> Peek(img, cls, off) == Flat(img, cls)[off])
            <==> img.upper[live..live + PAGE_SIZE] == img.upper[..PAGE_SIZE]
  {
    var live := img.PageReg() * 128;
    var page, zero := img.upper[live..live + PAGE_SIZE], img.upper[..PAGE_SIZE];
    var start := Base(cls) + PAGE_SIZE;
    forall off | 0 <= off < Size(cls)
      ensures Peek(img, cls, off) ==
              if InPageZero(cls, off) then page[off - start] else Flat(img, cls)[off]
      ensures InPageZero(cls, off) ==> Flat(img, cls)[off] == zero[off - start]
    {
      PeekMeaning(img, cls, off);
    }
    if forall off :: 0 <= off < Size(cls) ==> Peek(img, cls, off) == Flat(img, cls)[off] {
      forall i | 0 <= i < PAGE_SIZE ensures page[i] == zero[i] {
        assert Peek(img, cls, start + i) == Flat(img, cls)[start + i];
      }
    }
  }

  // ----- Writes update the flat array --------------------------------------------------------

  /** The one family of writes that breaks the protocol puts a nonzero value on the select byte. */
  predicate SafeWrite(cls: DevClass, off: nat, d: seq<byte>) {
    off <= SelectOffset(cls) < off + |d| ==> d[SelectOffset(cls) - off] == 0
  }

  lemma PokeUpdatesFlat(img: Image, cls: DevClass, off: nat, v: byte)
    requires img.Valid() && off < Size(cls) && img.PageReg() == 0
    requires off == SelectOffset(cls) ==> v == 0
    ensures Poke(img, cls, off, v).PageReg() == 0
    ensures Flat(Poke(img, cls, off, v), cls) == Flat(img, cls)[off := v]
  {
  }

  /** A safe write is a plain array update and leaves the page register at 0. */
  lemma {:induction false} PokeAllUpdatesFlat(img: Image, cls: DevClass, off: nat, d: seq<byte>)
    requires img.Valid() && off + |d| <= Size(cls) && img.PageReg() == 0
    requires SafeWrite(cls, off, d)
    ensures PokeAll(img, cls, off, d).PageReg() == 0
    ensures Flat(PokeAll(img, cls, off, d), cls) == Splice(Flat(img, cls), off, d)
  {
    hide Poke, Flat, Splice, Size;
    if d == [] {
      assert Splice(Flat(img, cls), off, d) == Flat(img, cls);
    } else {
      var k := |d| - 1;
      var f, m := Flat(img, cls), PokeAll(img, cls, off, d[..k]);
      assert SafeWrite(cls, off, d[..k]);
      PokeAllUpdatesFlat(img, cls, off, d[..k]);
      PokeUpdatesFlat(m, cls, off + k, d[k]);
      SpliceSnoc(f, off, d);
    }
  }

  /** Exactly the safe writes keep both halves of the contract: plain update and register 0. */
  lemma WriteIsPlainUpdateIffSafe(img: Image, cls: DevClass, off: nat, d: seq<byte>)
    requires img.Valid() && off + |d| <= Size(cls) && img.PageReg() == 0
    ensures SafeWrite(cls, off, d) <==>
            var m := PokeAll(img, cls, off, d);
            m.PageReg() == 0 && Flat(m, cls) == Splice(Flat(img, cls), off, d)
  {
    hide Poke, PokeAll;
    if SafeWrite(cls, off, d) {
      PokeAllUpdatesFlat(img, cls, off, d);
    } else {
      var m := PokeAll(img, cls, off, d);
      assert Flat(m, cls)[SelectOffset(cls)] == m.PageReg();
    }
  }

  /** A concrete write that goes wrong: the byte meant for page 0 lands in page 1. */
  lemma UnsafeWriteHitsAnotherPage(img: Image, v: byte)
    requires img.Valid() && img.PageReg() == 0
    ensures var m := PokeAll(img, OneAddr, 127, [1, v]);
            m.PageReg() == 1 && m.upper == img.upper[PAGE_SIZE := v]
  {
    var d := [1, v];
    assert d[..1] == [1] && d[..1][..0] == [];
    assert Locate(OneAddr, 127) == Location(0, 0, 127) && Locate(OneAddr, 128) == Location(0, 0, 128);
    assert PokeAll(img, OneAddr, 127, d[..1]) == Poke(img, OneAddr, 127, 1);
  }

  // ----- A chunk: one selection, many transfers ----------------------------------------------

  lemma ChunkReads(img: Image, cls: DevClass, off: nat, n: nat)
    requires img.Valid() && off + n <= Size(cls) && n > 0 && off % 128 + n <= PAGE_SIZE
    ensures var loc := Locate(cls, off);
            loc.phys + n <= 256
            && ViewRange(Selected(img, loc.page), cls, loc.client, loc.phys, n) == PeekRange(img, cls, off, n)
  {
    var loc := Locate(cls, off);
    LocateInBlock(cls, off, n - 1);
    forall i | 0 <= i < n
      ensures ViewRange(Selected(img, loc.page), cls, loc.client, loc.phys, n)[i] == Peek(img, cls, off + i)
    {
      LocateInBlock(cls, off, i);
    }
  }

  /** One more byte of a chunk: poking it is storing it with the page already selected. */
  lemma ChunkStep(m: Image, s: Image, cls: DevClass, off: nat, k: nat, v: byte)
    requires m.Valid() && s.Valid()
    requires off + k < Size(cls) && off % 128 + k < PAGE_SIZE
    requires Selected(m, Locate(cls, off).page) == s
    ensures Locate(cls, off).phys + k < 256
    ensures var loc := Locate(cls, off);
            var s' := Store(s, cls, loc.client, loc.phys + k, v);
            && Poke(m, cls, off + k, v) == Restored(s', loc.page)
            && Selected(Poke(m, cls, off + k, v), loc.page) == s'
  {
  }

  /** Along a chunk the two images differ in the page register only. */
  lemma {:induction false} ChunkTracks(img: Image, cls: DevClass, off: nat, d: seq<byte>, loc: Location)
    requires img.Valid() && off + |d| <= Size(cls) && off < Size(cls) && off % 128 + |d| <= PAGE_SIZE
    requires Locate(cls, off) == loc && loc.phys + |d| <= 256
    ensures Selected(PokeAll(img, cls, off, d), loc.page)
         == StoreAll(Selected(img, loc.page), cls, loc.client, loc.phys, d)
  {
    hide Locate, Poke, Store, Selected, Restored, Size;
    if d != [] {
      var k := |d| - 1;
      ChunkTracks(img, cls, off, d[..k], loc);
      var s := StoreAll(Selected(img, loc.page), cls, loc.client, loc.phys, d[..k]);
      ChunkStep(PokeAll(img, cls, off, d[..k]), s, cls, off, k, d[k]);
    }
  }

  lemma LastPoke(img: Image, cls: DevClass, off: nat, d: seq<byte>)
    requires img.Valid() && off + |d| <= Size(cls) && d != []
    ensures var k := |d| - 1;
            PokeAll(img, cls, off, d) == Poke(PokeAll(img, cls, off, d[..k]), cls, off + k, d[k])
  {
  }

  lemma LastStore(img: Image, cls: DevClass, client: int, reg: nat, d: seq<byte>)
    requires img.Valid() && reg + |d| <= 256 && d != []
    ensures var k := |d| - 1;
            StoreAll(img, cls, client, reg, d)
            == Store(StoreAll(img, cls, client, reg, d[..k]), cls, client, reg + k, d[k])
  {
  }

  lemma ChunkWritesAt(img: Image, cls: DevClass, off: nat, d: seq<byte>, loc: Location)
    requires img.Valid() && off + |d| <= Size(cls) && d != [] && off % 128 + |d| <= PAGE_SIZE
    requires Locate(cls, off) == loc && loc.phys + |d| <= 256
    ensures Restored(StoreAll(Selected(img, loc.page), cls, loc.client, loc.phys, d), loc.page)
         == PokeAll(img, cls, off, d)
  {
    hide Locate, Poke, Store, Selected, Restored, Size, PokeAll, StoreAll;
    var k := |d| - 1;
    ChunkTracks(img, cls, off, d[..k], loc);
    var m, s := PokeAll(img, cls, off, d[..k]), Selected(img, loc.page);
    ChunkStep(m, StoreAll(s, cls, loc.client, loc.phys, d[..k]), cls, off, k, d[k]);
    LastPoke(img, cls, off, d);
    LastStore(s, cls, loc.client, loc.phys, d);
  }

  /** Selecting once per chunk stores what selecting once per byte would store. */
  lemma ChunkWrites(img: Image, cls: DevClass, off: nat, d: seq<byte>)
    requires img.Valid() && off + |d| <= Size(cls) && d != [] && off % 128 + |d| <= PAGE_SIZE
    ensures Locate(cls, off).phys + |d| <= 256
    ensures var loc := Locate(cls, off);
            Restored(StoreAll(Selected(img, loc.page), cls, loc.client, loc.phys, d), loc.page)
            == PokeAll(img, cls, off, d)
  {
    hide Locate, Poke, Store, Selected, Restored, Size, PokeAll, StoreAll;
    LocateInBlock(cls, off, |d| - 1);
    ChunkWritesAt(img, cls, off, d, Locate(cls, off));
  }

  // ----- The register is the only thing a stale restore can spoil ----------------------------

  lemma PeekIgnoresRegisterOnPages(img: Image, r: byte, cls: DevClass, off: nat)
    requires img.Valid() && off < Size(cls) && Locate(cls, off).page > 0
    ensures Peek(img.WithReg(r), cls, off) == Peek(img, cls, off)
  {
  }

  lemma {:induction false} PokeIgnoresRegisterOnPages(img: Image, r: byte, cls: DevClass, off: nat, d: seq<byte>)
    requires img.Valid() && off + |d| <= Size(cls) && d != []
    requires off % 128 + |d| <= PAGE_SIZE && Locate(cls, off).page > 0
    ensures PokeAll(img.WithReg(r), cls, off, d) == PokeAll(img, cls, off, d)
    ensures PokeAll(img, cls, off, d).PageReg() == 0
  {
    var p := Locate(cls, off).page;
    ChunkWrites(img, cls, off, d);
    ChunkWrites(img.WithReg(r), cls, off, d);
    assert img.WithReg(r).WithReg(p).lower == img.WithReg(p).lower;
    assert Selected(img.WithReg(r), p) == Selected(img, p);
  }

  // ----- Capacity ----------------------------------------------------------------------------

  predicate Bit(v: byte, b: nat)
    requires b < 8
  {
    (v / [1, 2, 4, 8, 16, 32, 64, 128][b]) % 2 == 1
  }

  /** How much of the linear space the module supports, as its capability bits say. */
  function Capacity(img: Image, cls: DevClass): (n: nat)
    requires img.Valid()
    ensures 256 <= n <= Size(cls)
  {
    match cls
    case OneAddr => if Bit(img.lower[2], 2) then ONE_ADDR_UNPAGED_SIZE else ONE_ADDR_SIZE
    case Cmis => if Bit(img.lower[2], 7) then ONE_ADDR_UNPAGED_SIZE else ONE_ADDR_SIZE
    case TwoAddr =>
      if Bit(img.a0[0x40], 4) then TWO_ADDR_SIZE
      else if Bit(img.a0[92], 6) then TWO_ADDR_UNPAGED_SIZE
      else TWO_ADDR_NO_0X51_SIZE
  }

  /** The same by the values of the capability bytes: which values make a module how large. */
  lemma CapacityByBytes(img: Image, cls: DevClass)
    requires img.Valid()
    ensures cls.OneAddr? ==> Capacity(img, cls) == if img.lower[2] % 8 >= 4 then 256 else 257 * 128
    ensures cls.Cmis? ==> Capacity(img, cls) == if img.lower[2] >= 128 then 256 else 257 * 128
    ensures cls.TwoAddr? ==>
              Capacity(img, cls)
              == if img.a0[0x40] % 32 >= 16 then 259 * 128 else if img.a0[92] % 128 >= 64 then 512 else 256
  {
  }

  /** The part of a request of `len` bytes at `off` that lies inside the module. */
  function Clamp(cap: nat, off: nat, len: nat): nat {
    if off < cap then Min(len, cap - off) else 0
  }
}
