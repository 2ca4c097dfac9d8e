/**
 The optoe driver: the transfer routines with their retry loops, the page-select dance
 around one chunk, the legality check and the chunk loop, all proved against `OptoeMap`.
 */
module OptoeDriver {
  import opened Basics
  import opened OptoeMap

  const ENXIO := 6
  const EINVAL := 22
  const ETIMEDOUT := 110
  const SMBUS_BLOCK_MAX := 32

  /** How the adapter moves bytes: plain I2C messages or one of the SMBus calls. */
  datatype Transfer = I2cMessages | SmbusBlock | SmbusWord | SmbusByte

  datatype Opcode = ReadOp | WriteOp

  /** What is asked of the module, and how it went: all that was asked, or perhaps "no such device". */
  datatype Ask = Get(client: int, reg: nat, n: nat) | Put(client: int, reg: nat, data: seq<byte>)

  datatype BusOp = BusOp(ask: Ask, full: bool, gone: bool)

  /**
   The module on its bus. Every operation may fail, block reads may come back short, and a failed
   write leaves the module as it was.
   */
  class Transceiver {
    const cls: DevClass
    var image: Image
    ghost var log: seq<BusOp>

    constructor (cls: DevClass, image: Image)
      ensures this.cls == cls && this.image == image && log == []
    {
      this.cls, this.image, log := cls, image, [];
    }

    /** Reads up to `n` bytes; the status is their number, or negative. */
    method ReadBytes(client: int, reg: nat, n: nat) returns (status: int, data: seq<byte>)
      requires image.Valid() && 0 < n && reg + n <= 256
      modifies this`log
      ensures status <= n
      ensures data == if status >= 0 then ViewRange(image, cls, client, reg, status) else []
      ensures log == old(log) + [BusOp(Get(client, reg, n), status == n, status == -ENXIO)]
    {
      status :| -4096 < status <= n;
      data := if status >= 0 then ViewRange(image, cls, client, reg, status) else [];
      log := log + [BusOp(Get(client, reg, n), status == n, status == -ENXIO)];
    }

    /** One word, low byte first; past the last register the high byte is anything. */
    method ReadWord(client: int, reg: nat) returns (status: int)
      requires image.Valid() && reg < 256
      modifies this`log
      ensures status >= 0 ==> status < 0x10000 && status % 256 == View(image, cls, client, reg)
      ensures status >= 0 && reg + 1 < 256 ==> status / 256 == View(image, cls, client, reg + 1)
      ensures log == old(log) + [BusOp(Get(client, reg, 2), status >= 0, status == -ENXIO)]
    {
      if * {
        status :| -4096 < status < 0;
      } else {
        var high: byte :| reg + 1 < 256 ==> high == View(image, cls, client, reg + 1);
        status := View(image, cls, client, reg) + 256 * high;
      }
      log := log + [BusOp(Get(client, reg, 2), status >= 0, status == -ENXIO)];
    }

    /** Writes all of `data`, or nothing; the status is 0, or negative. */
    method WriteBytes(client: int, reg: nat, data: seq<byte>) returns (status: int)
      requires image.Valid() && reg + |data| <= 256
      modifies this
      ensures image == if status == 0 then StoreAll(old(image), cls, client, reg, data) else old(image)
      ensures status <= 0
      ensures log == old(log) + [BusOp(Put(client, reg, data), status == 0, status == -ENXIO)]
    {
      status :| -4096 < status <= 0;
      if status == 0 {
        image := StoreAll(image, cls, client, reg, data);
      }
      log := log + [BusOp(Put(client, reg, data), status == 0, status == -ENXIO)];
    }
  }

  /** An operation after which a transfer is not tried again: a full one, or a read of no device. */
  predicate Final(op: BusOp) {
    op.full || (op.ask.Get? && op.gone)
  }

  /** The log has grown by attempts at one thing, up to the first final one or the last one allowed. */
  ghost predicate Tried(before: seq<BusOp>, after: seq<BusOp>, ask: Ask, retries: nat) {
    && before < after && |after| <= |before| + retries + 1
    && (forall k :: |before| <= k < |after| ==> after[k].ask == ask)
    && (forall k :: |before| <= k < |after| - 1 ==> !Final(after[k]))
    && (Final(after[|after| - 1]) || |after| == |before| + retries + 1)
  }

  /** What the attempts amount to: the number of bytes moved, or the error. */
  function Verdict(after: seq<BusOp>, n: nat): int
    requires after != []
  {
    var last := after[|after| - 1];
    if last.full then n else if last.ask.Get? && last.gone then -ENXIO else -ETIMEDOUT
  }

  /** The log ends with attempts at one thing that were all there may be, and all failed. */
  ghost predicate Abandoned(before: seq<BusOp>, after: seq<BusOp>, ask: Ask, retries: nat) {
    exists k :: |before| <= k <= |after| && Tried(after[..k], after, ask, retries) && !after[|after| - 1].full
  }

  lemma AbandonedSince(before: seq<BusOp>, mid: seq<BusOp>, after: seq<BusOp>, ask: Ask, retries: nat)
    requires before <= mid && Abandoned(mid, after, ask, retries)
    ensures Abandoned(before, after, ask, retries)
  {
  }

  /** A negative result is the first of the errors that came up. */
  predicate FirstError(before: seq<int>, after: seq<int>, ret: int) {
    before <= after && (ret < 0 ==> |after| > |before| && after[|before|] == ret)
  }

  /**
   `k` bytes of a request for `count` have moved between the registers from `phys` on and the buffer
   from `pos` on: a read fills the buffer, a write changes the module, nothing else changes.
   */
  ghost predicate Moved(cls: DevClass, op: Opcode, client: int, phys: nat, img: Image, img': Image,
                        b: seq<byte>, b': seq<byte>, pos: nat, k: nat, count: nat)
  {
    && img.Valid() && img'.Valid() && phys + count <= 256
    && |b'| == |b| && k <= count && pos + count <= |b|
    && b'[..pos] == b[..pos] && b'[pos + count..] == b[pos + count..]
    && match op
       case ReadOp => img' == img && b'[pos..pos + k] == ViewRange(img, cls, client, phys, k)
       case WriteOp => b' == b && img' == StoreAll(img, cls, client, phys, b[pos..pos + k])
  }

  lemma MovedStart(cls: DevClass, op: Opcode, client: int, phys: nat, img: Image, b: seq<byte>, pos: nat, count: nat)
    requires img.Valid() && phys + count <= 256 && pos + count <= |b|
    ensures Moved(cls, op, client, phys, img, img, b, b, pos, 0, count)
  {
  }

  lemma MovedAppend(cls: DevClass, op: Opcode, client: int, phys: nat, img0: Image, img1: Image, img2: Image,
                    b0: seq<byte>, b1: seq<byte>, b2: seq<byte>, pos: nat, k: nat, n: nat, count: nat)
    requires Moved(cls, op, client, phys, img0, img1, b0, b1, pos, k, count)
    requires k <= count && Moved(cls, op, client, phys + k, img1, img2, b1, b2, pos + k, n, count - k)
    ensures Moved(cls, op, client, phys, img0, img2, b0, b2, pos, k + n, count)
  {
    assert b2[..pos] == b2[..pos + k][..pos] == b1[..pos];
    match op
    case ReadOp =>
      assert b2[pos..pos + k] == b2[..pos + k][pos..] == b1[pos..pos + k];
      assert b2[pos..pos + k + n] == b2[pos..pos + k] + b2[pos + k..pos + k + n];
    case WriteOp =>
      var d, e := b0[pos..pos + k], b0[pos + k..pos + k + n];
      assert b0[pos..pos + k + n] == d + e;
      StoreAllAppend(img0, cls, client, phys, d, e);
  }

  /** What the module should hold once `d` has been transferred at `off`. */
  ghost function Expected(cls: DevClass, op: Opcode, off: nat, img: Image, d: seq<byte>): (m: Image)
    requires img.Valid() && off + |d| <= Size(cls)
    ensures m.Valid()
  {
    if op.ReadOp? then img else PokeAll(img, cls, off, d)
  }

  /**
   The same in the linear address space, page register aside: `k` of `count` bytes from `off` on
   have been read into the buffer, or have been written from it.
   */
  ghost predicate Reached(cls: DevClass, op: Opcode, off: nat, img: Image, img': Image,
                          b: seq<byte>, b': seq<byte>, pos: nat, k: nat, count: nat)
  {
    && img.Valid() && off + count <= Size(cls)
    && |b'| == |b| && k <= count && pos + count <= |b|
    && b'[..pos] == b[..pos] && b'[pos + count..] == b[pos + count..]
    && SameButRegister(Expected(cls, op, off, img, b[pos..pos + k]), img')
    && match op
       case ReadOp => b'[pos..pos + k] == PeekRange(img, cls, off, k)
       case WriteOp => b' == b
  }

  /** A chunk moved with its page selected has reached its linear range. */
  lemma ChunkMoved(cls: DevClass, op: Opcode, off: nat, img: Image, mid: Image,
                   b: seq<byte>, b': seq<byte>, pos: nat, k: nat, count: nat)
    requires img.Valid() && off + count <= Size(cls) && count > 0 && off % 128 + count <= 128
    requires var loc := Locate(cls, off);
             Moved(cls, op, loc.client, loc.phys, Selected(img, loc.page), mid, b, b', pos, k, count)
    ensures Reached(cls, op, off, img, mid, b, b', pos, k, count)
    ensures var page := Locate(cls, off).page;
            var done := Expected(cls, op, off, img, b[pos..pos + k]);
            && (page == 0 ==> mid == done)
            && (page > 0 ==> SameButRegister(done, Restored(mid, page)))
  {
    var loc := Locate(cls, off);
    var d := b[pos..pos + k];
    if op.WriteOp? && k > 0 {
      ChunkWrites(img, cls, off, d);
      WithRegIsSameButRegister(mid, 0);
    } else {
      assert op.WriteOp? ==> d == [];
      WithRegIsSameButRegister(img, loc.page);
      WithRegIsSameButRegister(img, 0);
    }
    if k > 0 {
      ChunkReads(img, cls, off, k);
    }
  }

  /** A spoiled register does no harm to a later piece of the same read: its page gets selected. */
  lemma PeekAppend(cls: DevClass, off: nat, img0: Image, img1: Image, k: nat, n: nat)
    requires img0.Valid() && off + k + n <= Size(cls) && n > 0 && (off + k) % 128 + n <= 128
    requires img1 == img0 || (SameButRegister(img0, img1) && Locate(cls, off + k).page > 0)
    ensures PeekRange(img0, cls, off, k) + PeekRange(img1, cls, off + k, n) == PeekRange(img0, cls, off, k + n)
  {
    var head, piece := PeekRange(img0, cls, off, k), PeekRange(img1, cls, off + k, n);
    var all := PeekRange(img0, cls, off, k + n);
    forall i | 0 <= i < n ensures piece[i] == all[k + i] {
      if img1 != img0 {
        LocateInBlock(cls, off + k, i);
        PeekIgnoresRegisterOnPages(img0, img1.PageReg(), cls, off + k + i);
      }
    }
    assert head + piece == all;
  }

  /** The same for a write. */
  lemma PokeAppend(cls: DevClass, off: nat, img0: Image, img1: Image, d: seq<byte>, e: seq<byte>)
    requires img0.Valid() && off + |d| + |e| <= Size(cls) && e != [] && (off + |d|) % 128 + |e| <= 128
    requires var p := PokeAll(img0, cls, off, d);
             img1 == p || (SameButRegister(p, img1) && Locate(cls, off + |d|).page > 0)
    ensures img1.Valid() && PokeAll(img1, cls, off + |d|, e) == PokeAll(img0, cls, off, d + e)
    ensures Locate(cls, off + |d|).page > 0 ==> PokeAll(img0, cls, off, d + e).PageReg() == 0
  {
    var p := PokeAll(img0, cls, off, d);
    PokeAllAppend(img0, cls, off, d, e);
    if Locate(cls, off + |d|).page > 0 {
      PokeIgnoresRegisterOnPages(p, img1.PageReg(), cls, off + |d|, e);
    }
  }

  /** Two consecutive pieces make one, as long as a spoiled register meets only selected pages. */
  lemma ReachedAppend(cls: DevClass, op: Opcode, off: nat, img0: Image, img1: Image, img2: Image,
                      b0: seq<byte>, b1: seq<byte>, b2: seq<byte>, k: nat, n: nat, m: nat, count: nat)
    requires Reached(cls, op, off, img0, img1, b0, b1, 0, k, count)
    requires Reached(cls, op, off + k, img1, img2, b1, b2, k, n, m)
    requires n <= m && 0 < m && k + m <= count && (off + k) % 128 + m <= 128
    requires img1 == Expected(cls, op, off, img0, b0[0..k]) || Locate(cls, off + k).page > 0
    ensures Reached(cls, op, off, img0, img2, b0, b2, 0, k + n, count)
    ensures img1 == Expected(cls, op, off, img0, b0[0..k]) ==>
              Expected(cls, op, off + k, img1, b1[k..k + n]) == Expected(cls, op, off, img0, b0[0..k + n])
    ensures n > 0 && op.WriteOp? && Locate(cls, off + k).page > 0 ==>
              Expected(cls, op, off, img0, b0[0..k + n]).PageReg() == 0
  {
    var d, e := b0[0..k], b0[k..k + n];
    assert b0[0..k + n] == d + e;
    if op.ReadOp? {
      ReadAppend(cls, off, img0, img1, b0, b1, b2, k, n, m, count);
    } else {
      WriteAppend(cls, off, img0, img1, img2, d, e);
    }
  }

  lemma WriteAppend(cls: DevClass, off: nat, img0: Image, img1: Image, img2: Image, d: seq<byte>, e: seq<byte>)
    requires img0.Valid() && off + |d| + |e| <= Size(cls) && (off + |d|) % 128 + |e| <= 128 && off + |d| < Size(cls)
    requires img1.Valid() && SameButRegister(PokeAll(img1, cls, off + |d|, e), img2)
    requires var p := PokeAll(img0, cls, off, d);
             img1 == p || (SameButRegister(p, img1) && Locate(cls, off + |d|).page > 0)
    ensures var q := PokeAll(img0, cls, off, d + e);
            && SameButRegister(q, img2)
            && (img1 == PokeAll(img0, cls, off, d) ==> PokeAll(img1, cls, off + |d|, e) == q)
            && (e != [] && Locate(cls, off + |d|).page > 0 ==> q.PageReg() == 0)
  {
    if e == [] {
      assert d + e == d;
      var p := PokeAll(img0, cls, off, d);
      assert PokeAll(img1, cls, off + |d|, e) == img1;
      assert SameButRegister(p, img1) by { WithRegIsSameButRegister(p, 0); }
      SameButRegisterTrans(p, img1, img2);
    } else {
      PokeAppend(cls, off, img0, img1, d, e);
    }
  }

  lemma ReadAppend(cls: DevClass, off: nat, img0: Image, img1: Image,
                   b0: seq<byte>, b1: seq<byte>, b2: seq<byte>, k: nat, n: nat, m: nat, count: nat)
    requires img0.Valid() && img1.Valid() && n <= m && k + m <= count && off + count <= Size(cls)
    requires count <= |b0| == |b1| == |b2| && m > 0 && (off + k) % 128 + m <= 128
    requires b1[count..] == b0[count..] && b1[0..k] == PeekRange(img0, cls, off, k)
    requires b2[..k] == b1[..k] && b2[k + m..] == b1[k + m..] && b2[k..k + n] == PeekRange(img1, cls, off + k, n)
    requires img1 == img0 || (SameButRegister(img0, img1) && Locate(cls, off + k).page > 0)
    ensures b2[count..] == b0[count..]
    ensures b2[0..k + n] == PeekRange(img0, cls, off, k + n)
  {
    assert b2[count..] == b2[k + m..][count - k - m..] == b1[k + m..][count - k - m..] == b1[count..];
    assert b2[0..k] == b2[..k] == b1[..k] == b1[0..k];
    if n == 0 {
      assert b2[0..k + n] == b2[0..k];
    } else {
      PeekAppend(cls, off, img0, img1, k, n);
      assert b2[0..k + n] == b2[0..k] + b2[k..k + n];
    }
  }

  /**
   Where a run of chunks stands after `k` of `count` bytes: as much as that reached, the module
   exact unless only selected pages are left, and the register, if it could always be put back,
   at 0 or as the bytes so far left it.
   */
  ghost predicate Progress(cls: DevClass, op: Opcode, off: nat, img: Image, img': Image,
                           b: seq<byte>, b': seq<byte>, k: nat, count: nat, putBack: bool)
  {
    && Reached(cls, op, off, img, img', b, b', 0, k, count)
    && var done := Expected(cls, op, off, img, b[0..k]);
       && (img' == done || off + k >= Base(cls) + 256)
       && (putBack ==> img'.PageReg() == 0 || img'.PageReg() == done.PageReg())
  }

  lemma ProgressStart(cls: DevClass, op: Opcode, off: nat, img: Image, b: seq<byte>, count: nat)
    requires img.Valid() && count <= |b| && off + count <= Size(cls)
    ensures Progress(cls, op, off, img, img, b, b, 0, count, true)
  {
  }

  /** One more chunk, with what `UpdateClient` promises of it. */
  lemma ProgressStep(cls: DevClass, op: Opcode, off: nat, img0: Image, img1: Image, img2: Image,
                     b0: seq<byte>, b1: seq<byte>, b2: seq<byte>, k: nat, n: nat, m: nat, count: nat,
                     before: bool, after: bool)
    requires Progress(cls, op, off, img0, img1, b0, b1, k, count, before)
    requires Reached(cls, op, off + k, img1, img2, b1, b2, k, n, m)
    requires n <= m && 0 < m && k + m <= count && (off + k) % 128 + m <= 128 && (after ==> before)
    requires var page := Locate(cls, off + k).page;
             && (page == 0 ==> img2 == Expected(cls, op, off + k, img1, b1[k..k + n]))
             && (page > 0 && after ==> img2.PageReg() == 0 || (n == 0 && img2 == img1))
    ensures Progress(cls, op, off, img0, img2, b0, b2, k + n, count, after)
  {
    LocateIsNormal(cls, off + k);
    ReachedAppend(cls, op, off, img0, img1, img2, b0, b1, b2, k, n, m, count);
    assert n == 0 ==> b0[0..k + n] == b0[0..k];
  }

  /** The loop's own arithmetic: the next piece starts where the last one ended, in one block. */
  method ChunkBounds(off: nat, pending: nat, chunk: nat, ghost done: nat) returns (chunkOffset: nat, chunkLen: nat)
    requires pending > 0 && chunk * 128 <= off + done < (chunk + 1) * 128
    requires done == 0 || off + done == chunk * 128
    ensures chunkOffset == off + done && 0 < chunkLen <= pending
    ensures chunkOffset % 128 + chunkLen <= 128
    ensures chunkOffset + chunkLen <= (chunk + 1) * 128
    ensures chunkLen == pending || chunkOffset + chunkLen == (chunk + 1) * 128
  {
    var start := chunk * 128;
    var end := start + 128;
    if start < off {
      chunkOffset := off;
      chunkLen := if off + pending < end then pending else end - off;
    } else {
      chunkOffset := start;
      chunkLen := if pending < 128 then pending else 128;
    }
  }

  // ----- What a user is promised -------------------------------------------------------------

  lemma SameRegisterSameImage(a: Image, b: Image)
    requires a == b || (SameButRegister(a, b) && a.PageReg() == b.PageReg())
    ensures a == b
  {
  }

  /** How many bytes of the request the module supports. */
  function Requested(img: Image, cls: DevClass, off: int, len: nat): nat
    requires img.Valid()
  {
    if off >= 0 then Clamp(Capacity(img, cls), off, len) else 0
  }

  datatype Request = ReadReq(off: int, len: nat) | WriteReq(off: int, bytes: seq<byte>)

  predicate SafeRequest(cls: DevClass, req: Request) {
    req.WriteReq? && req.off >= 0 ==> SafeWrite(cls, req.off, req.bytes)
  }

  /** The capability bits, found in the flat array. */
  function FlatCapacity(f: seq<byte>, cls: DevClass): nat
    requires |f| == Size(cls)
  {
    match cls
    case OneAddr => if Bit(f[2], 2) then ONE_ADDR_UNPAGED_SIZE else ONE_ADDR_SIZE
    case Cmis => if Bit(f[2], 7) then ONE_ADDR_UNPAGED_SIZE else ONE_ADDR_SIZE
    case TwoAddr =>
      if Bit(f[0x40], 4) then TWO_ADDR_SIZE
      else if Bit(f[92], 6) then TWO_ADDR_UNPAGED_SIZE
      else TWO_ADDR_NO_0X51_SIZE
  }

  lemma CapacityOfFlat(img: Image, cls: DevClass)
    requires img.Valid()
    ensures FlatCapacity(Flat(img, cls), cls) == Capacity(img, cls)
  {
  }

  /** A served request: the result returned and the bytes it counts. */
  datatype Entry = Entry(req: Request, ret: int, moved: seq<byte>) {
    /** What the entry does to a plain array. */
    function Effect(f: seq<byte>): (g: seq<byte>)
      ensures |g| == |f|
    {
      if req.WriteReq? && ret > 0 && 0 <= req.off && req.off + |moved| <= |f| then Splice(f, req.off, moved) else f
    }

    /** A plain array of the supported size could have given this answer. */
    ghost predicate Plain(cls: DevClass, f: seq<byte>)
      requires |f| == Size(cls)
    {
      ret > 0 ==>
        && 0 <= req.off < FlatCapacity(f, cls) <= |f|
        && ret <= FlatCapacity(f, cls) - req.off && |moved| == ret
        && match req
           case ReadReq(off, len) => ret <= len && moved == f[off..off + ret]
           case WriteReq(off, bytes) => ret <= |bytes| && moved == bytes[..ret]
    }

    /** The answer is not only right but as long as the request and the array allow. */
    ghost predicate Complete(cls: DevClass, f: seq<byte>)
      requires |f| == Size(cls)
    {
      req.off >= 0 ==>
        ret == Clamp(FlatCapacity(f, cls), req.off, if req.ReadReq? then req.len else |req.bytes|)
    }
  }

  /** The array after the logged writes. */
  function Replay(f: seq<byte>, log: seq<Entry>): (g: seq<byte>)
    ensures |g| == |f|
  {
    if log == [] then f else log[|log| - 1].Effect(Replay(f, log[..|log| - 1]))
  }

  /** Every answer is the one a plain array gives after the writes logged before it. */
  ghost predicate PlainRun(cls: DevClass, f: seq<byte>, log: seq<Entry>)
    requires |f| == Size(cls)
  {
    forall i :: 0 <= i < |log| ==> log[i].Plain(cls, Replay(f, log[..i]))
  }

  /** The linear offsets of the bytes that say how much the module supports. */
  function CapabilityBytes(cls: DevClass): set<nat> {
    if cls.TwoAddr? then {0x40, 92} else {2}
  }

  lemma CapabilityKept(cls: DevClass, f: seq<byte>, g: seq<byte>)
    requires |f| == |g| == Size(cls)
    requires forall b :: b in CapabilityBytes(cls) ==> g[b] == f[b]
    ensures FlatCapacity(g, cls) == FlatCapacity(f, cls)
  {
  }

  /** A complete write and a complete read of the same range give the bytes back. */
  lemma WriteReadRoundTrip(cls: DevClass, f: seq<byte>, w: Entry, r: Entry, off: nat, d: seq<byte>)
    requires |f| == Size(cls)
    requires w.req == WriteReq(off, d) && w.Plain(cls, f) && w.Complete(cls, f)
    requires r.req == ReadReq(off, |d|) && r.Plain(cls, w.Effect(f)) && r.Complete(cls, w.Effect(f))
    requires forall b :: b in CapabilityBytes(cls) ==> !(off <= b < off + |d|)
    ensures r.ret == w.ret == Clamp(FlatCapacity(f, cls), off, |d|)
    ensures r.ret > 0 ==> r.moved == d[..w.ret]
  {
    CapabilityKept(cls, f, w.Effect(f));
  }

  lemma SplitEffect(cls: DevClass, f: seq<byte>, w: Entry, w1: Entry, w2: Entry, off: nat, d: seq<byte>, e: seq<byte>)
    requires |f| == Size(cls)
    requires w.req == WriteReq(off, d + e) && w.Plain(cls, f) && w.Complete(cls, f)
    requires w1.req == WriteReq(off, d) && w1.Plain(cls, f) && w1.Complete(cls, f)
    requires w2.req == WriteReq(off + |d|, e) && w2.Plain(cls, w1.Effect(f)) && w2.Complete(cls, w1.Effect(f))
    requires FlatCapacity(w1.Effect(f), cls) == FlatCapacity(f, cls)
    ensures w2.Effect(w1.Effect(f)) == w.Effect(f)
    ensures Max(w1.ret, 0) + Max(w2.ret, 0) == w.ret
  {
    hide FlatCapacity, Size;
    var cap := FlatCapacity(f, cls);
    if off + |d| < cap && w1.ret > 0 && w2.ret > 0 {
      assert w.moved == w1.moved + w2.moved;
    }
  }

  /** A write split in two leaves the array that one write would leave, wherever the module ends. */
  lemma SplitWriteIsOneWrite(cls: DevClass, f: seq<byte>, w: Entry, w1: Entry, w2: Entry,
                             off: nat, d: seq<byte>, e: seq<byte>)
    requires |f| == Size(cls)
    requires w.req == WriteReq(off, d + e) && w.Plain(cls, f) && w.Complete(cls, f)
    requires w1.req == WriteReq(off, d) && w1.Plain(cls, f) && w1.Complete(cls, f)
    requires w2.req == WriteReq(off + |d|, e) && w2.Plain(cls, w1.Effect(f)) && w2.Complete(cls, w1.Effect(f))
    requires forall b :: b in CapabilityBytes(cls) ==> !(off <= b < off + |d|)
    ensures w2.Effect(w1.Effect(f)) == w.Effect(f)
    ensures Max(w1.ret, 0) + Max(w2.ret, 0) == w.ret
  {
    hide FlatCapacity;
    CapabilityKept(cls, f, w1.Effect(f));
    SplitEffect(cls, f, w, w1, w2, off, d, e);
  }

  class Optoe {
    const dev: Transceiver
    const transfer: Transfer
    const writeMax: nat
    /** How many more attempts fit into the write timeout after the first one. */
    const retries: nat
    /** How many times the page register could not be put back. */
    ghost var restoreFaults: nat
    /** The errors of transfers that were given up, in order. */
    ghost var errors: seq<int>

    constructor (dev: Transceiver, transfer: Transfer, writeMax: nat, retries: nat)
      requires writeMax > 0
      ensures this.dev == dev && this.transfer == transfer && restoreFaults == 0 && errors == []
      ensures this.writeMax == writeMax && this.retries == retries
    {
      this.dev, this.transfer, this.writeMax, this.retries := dev, transfer, writeMax, retries;
      restoreFaults, errors := 0, [];
    }

    ghost predicate Valid()
      reads this, dev
    {
      dev.image.Valid() && writeMax > 0
    }

    /** How many transfers were given up, other than to put the page register back. */
    ghost function TransferErrors(): int
      reads this`errors, this`restoreFaults
    {
      |errors| - restoreFaults
    }

    /** Computes client, page and physical offset the way the driver adjusts its offset. */
    method TranslateOffset(off: nat) returns (client: int, page: int, offset: int)
      requires off < Size(dev.cls)
      ensures Location(client, page, offset) == Locate(dev.cls, off)
    {
      client, page, offset := 0, 0, off;
      if dev.cls.TwoAddr? {
        if offset > 255 {
          client := 1;
          offset := offset - 256;
        }
      }
      if offset < PAGE_SIZE {
        return;
      }
      page := offset / 128 - 1;
      offset := PAGE_SIZE + offset % 128;
    }

    /** The size one read transfer is cut to. */
    function ReadUnit(count: nat): (n: nat)
      requires count > 0
      ensures 0 < n <= count
    {
      match transfer
      case I2cMessages => count
      case SmbusBlock => Min(count, SMBUS_BLOCK_MAX)
      case SmbusWord => if count == 1 then 1 else 2
      case SmbusByte => 1
    }

    /** One read transfer with its retries: all of the unit, or a negative status. */
    method EepromRead(client: int, buf: array<byte>, pos: nat, offset: nat, count: nat) returns (status: int)
      requires Valid() && count > 0 && offset + count <= 256 && pos + count <= buf.Length
      modifies buf, dev`log, this`errors
      ensures var n := match transfer
                       case I2cMessages => count
                       case SmbusBlock => if count > 32 then 32 else count
                       case SmbusWord => if count == 1 then 1 else 2
                       case SmbusByte => 1;
              && 0 < n <= count
              && Tried(old(dev.log), dev.log, Get(client, offset, if transfer.SmbusWord? then 2 else n), retries)
              && status == Verdict(dev.log, n)
      ensures status == -ENXIO <==> !dev.log[|dev.log| - 1].full && dev.log[|dev.log| - 1].gone
      ensures status == -ETIMEDOUT ==> |dev.log| == |old(dev.log)| + retries + 1
      ensures status > 0 || status == -ENXIO || status == -ETIMEDOUT
      ensures forall k :: |old(dev.log)| <= k < |dev.log| - 1 ==> !dev.log[k].full && !dev.log[k].gone
      ensures status > 0 ==> buf[pos..pos + status] == ViewRange(dev.image, dev.cls, client, offset, status)
      ensures forall i :: 0 <= i < buf.Length && !(pos <= i < pos + count) ==> buf[i] == old(buf[i])
      ensures errors == old(errors) + if status < 0 then [status] else []
    {
      var n := ReadUnit(count);
      ghost var ask := Get(client, offset, if transfer.SmbusWord? then 2 else n);
      var attempt := 0;
      while true
        invariant attempt <= retries
        invariant forall i :: 0 <= i < buf.Length && !(pos <= i < pos + count) ==> buf[i] == old(buf[i])
        invariant old(dev.log) <= dev.log && |dev.log| == |old(dev.log)| + attempt
        invariant forall k :: |old(dev.log)| <= k < |dev.log| ==> dev.log[k].ask == ask && !Final(dev.log[k])
        invariant errors == old(errors)
        decreases retries - attempt
      {
        if transfer.SmbusWord? {
          status := dev.ReadWord(client, offset);
          if status >= 0 {
            buf[pos] := status % 256;
            if n == 2 {
              buf[pos + 1] := status / 256;
            }
            status := n;
          }
        } else {
          var data;
          status, data := dev.ReadBytes(client, offset, n);
          forall i | 0 <= i < |data| {
            buf[pos + i] := data[i];
          }
        }
        if status == n {
          return;
        }
        if status == -ENXIO {
          errors := errors + [status];
          return;
        }
        if attempt == retries {
          break;
        }
        attempt := attempt + 1;
      }
      status := -ETIMEDOUT;
      errors := errors + [status];
    }

    /** The size one write transfer is cut to: write_max, the 128-byte boundary, the SMBus call. */
    function WriteUnit(offset: nat, count: nat): (n: nat)
      requires count > 0 && writeMax > 0
      ensures 0 < n <= count
    {
      var c := Min(count, writeMax);
      var nextPageStart := (offset / 128 + 1) * 128;
      var c := if offset + c > nextPageStart then nextPageStart - offset else c;
      match transfer
      case I2cMessages => c
      case SmbusBlock => Min(c, SMBUS_BLOCK_MAX)
      case SmbusWord => if c == 1 then 1 else 2
      case SmbusByte => 1
    }

    /** One write transfer with its retries: all of the unit, or a negative status and no change. */
    method EepromWrite(client: int, data: seq<byte>, offset: nat) returns (status: int)
      requires Valid() && data != [] && offset + |data| <= 256
      modifies dev, this`errors
      ensures Valid()
      ensures var c := Min(Min(|data|, writeMax), 128 - offset % 128);
              var n := match transfer
                       case I2cMessages => c
                       case SmbusBlock => if c > 32 then 32 else c
                       case SmbusWord => if c == 1 then 1 else 2
                       case SmbusByte => 1;
              && 0 < n <= |data|
              && Tried(old(dev.log), dev.log, Put(client, offset, data[..n]), retries)
              && status == Verdict(dev.log, n)
      ensures status < 0 ==> status == -ETIMEDOUT && |dev.log| == |old(dev.log)| + retries + 1
      ensures forall k :: |old(dev.log)| <= k < |dev.log| - 1 ==> !dev.log[k].full
      ensures status > 0 <==> dev.log[|dev.log| - 1].full
      ensures dev.image == if status > 0 then StoreAll(old(dev.image), dev.cls, client, offset, data[..status])
                           else old(dev.image)
      ensures errors == old(errors) + if status < 0 then [status] else []
    {
      var n := WriteUnit(offset, |data|);
      ghost var ask := Put(client, offset, data[..n]);
      var attempt := 0;
      while true
        invariant attempt <= retries
        invariant dev.image == old(dev.image) && errors == old(errors)
        invariant old(dev.log) <= dev.log && |dev.log| == |old(dev.log)| + attempt
        invariant forall k :: |old(dev.log)| <= k < |dev.log| ==> dev.log[k].ask == ask && !Final(dev.log[k])
        decreases retries - attempt
      {
        status := dev.WriteBytes(client, offset, data[..n]);
        if status == 0 {
          return n;
        }
        if attempt == retries {
          break;
        }
        attempt := attempt + 1;
      }
      status := -ETIMEDOUT;
      errors := errors + [status];
    }

    /** One unit in the direction of the opcode. */
    method TransferUnit(client: int, buf: array<byte>, pos: nat, phys: nat, count: nat, op: Opcode)
      returns (status: int)
      requires Valid() && count > 0 && phys + count <= 256 && pos + count <= buf.Length
      modifies buf, dev, this`errors
      ensures Valid() && status <= count && status != 0
      ensures Moved(dev.cls, op, client, phys, old(dev.image), dev.image, old(buf[..]), buf[..],
                    pos, Max(status, 0), count)
      ensures errors == old(errors) + if status < 0 then [status] else []
      ensures old(dev.log) <= dev.log
    {
      if op.ReadOp? {
        status := EepromRead(client, buf, pos, phys, count);
      } else {
        status := EepromWrite(client, buf[pos..pos + count], phys);
        if status > 0 {
          assert buf[pos..pos + count][..status] == buf[..][pos..pos + status];
        } else {
          assert buf[..][pos..pos] == [];
        }
      }
    }

    /** The transfer loop of one chunk: as many units as it takes, up to the first failure. */
    method TransferChunk(client: int, buf: array<byte>, pos: nat, phys: nat, count: nat, op: Opcode)
      returns (retval: int)
      requires Valid() && count > 0 && phys + count <= 256 && pos + count <= buf.Length
      modifies buf, dev, this`errors
      ensures Valid() && retval <= count && retval != 0
      ensures Moved(dev.cls, op, client, phys, old(dev.image), dev.image, old(buf[..]), buf[..],
                    pos, Max(retval, 0), count)
      ensures FirstError(old(errors), errors, retval)
      ensures |errors| == |old(errors)| + if retval == count then 0 else 1
      ensures old(dev.log) <= dev.log
    {
      hide Moved, ViewRange, StoreAll;
      ghost var img0, buf0 := dev.image, buf[..];
      MovedStart(dev.cls, op, client, phys, img0, buf0, pos, count);
      retval := 0;
      var done := 0;
      while done < count
        invariant 0 <= done <= count && retval == done && Valid()
        invariant Moved(dev.cls, op, client, phys, img0, dev.image, buf0, buf[..], pos, done, count)
        invariant errors == old(errors) && old(dev.log) <= dev.log
      {
        ghost var img1, buf1 := dev.image, buf[..];
        var status := TransferUnit(client, buf, pos + done, phys + done, count - done, op);
        MovedAppend(dev.cls, op, client, phys, img0, img1, dev.image, buf0, buf1, buf[..],
                    pos, done, Max(status, 0), count);
        if status <= 0 {
          if retval == 0 {
            retval := status;
          }
          break;
        }
        done := done + status;
        retval := retval + status;
      }
    }

    /** Writes the page register. */
    method Select(client: int, page: byte) returns (ret: int)
      requires Valid() && !Flat256(dev.cls, client)
      modifies dev, this`errors
      ensures Valid() && old(dev.log) <= dev.log
      ensures dev.image == if ret < 0 then old(dev.image) else old(dev.image).WithReg(page)
      ensures errors == old(errors) + if ret < 0 then [ret] else []
      ensures ret < 0 ==> Abandoned(old(dev.log), dev.log, Put(client, 127, [page]), retries)
    {
      ghost var log := dev.log;
      assert [page][..1] == [page];
      StoreSelects(dev.image, dev.cls, client, page);
      ret := EepromWrite(client, [page], PAGE_SELECT_REG);
      assert dev.log[..|log|] == log;
      assert Tried(dev.log[..|log|], dev.log, Put(client, 127, [page]), retries);
    }

    /**
     One chunk inside one 128-byte block: select the page unless it is 0, transfer, put the register
     back. A positive result counts the bytes transferred, a negative one means none was.
     */
    method UpdateClient(buf: array<byte>, pos: nat, off: nat, count: nat, op: Opcode) returns (retval: int)
      requires Valid() && count > 0 && off % 128 + count <= 128 && off + count <= Size(dev.cls)
      requires pos + count <= buf.Length
      modifies buf, dev, this`restoreFaults, this`errors
      ensures Valid() && retval <= count && retval != 0
      ensures Reached(dev.cls, op, off, old(dev.image), dev.image, old(buf[..]), buf[..], pos, Max(retval, 0), count)
      ensures Locate(dev.cls, off).page == 0 ==>
                dev.image == Expected(dev.cls, op, off, old(dev.image), old(buf[pos..pos + Max(retval, 0)]))
      ensures Locate(dev.cls, off).page > 0 && restoreFaults == old(restoreFaults) ==>
                dev.image.PageReg() == 0 || (retval < 0 && dev.image == old(dev.image))
      ensures FirstError(old(errors), errors, retval)
      ensures TransferErrors() == old(TransferErrors()) + if retval == count then 0 else 1
      ensures restoreFaults == old(restoreFaults)
           || (restoreFaults == old(restoreFaults) + 1 && Locate(dev.cls, off).page > 0
               && Abandoned(old(dev.log), dev.log, Put(Locate(dev.cls, off).client, 127, [0]), retries))
    {
      hide Moved, StoreAll, View, Abandoned;
      ghost var img, cls, buf0 := dev.image, dev.cls, buf[..];
      LocateIsNormal(dev.cls, off);
      var client, page, phys := TranslateOffset(off);
      WithRegIsSameButRegister(img, 0);
      if page > 0 {
        var ret := Select(client, page);
        if ret < 0 {
          assert buf0[pos..pos] == [];
          return ret;
        }
      }
      assert dev.image == Selected(img, page);
      LocateInBlock(cls, off, count - 1);
      retval := TransferChunk(client, buf, pos, phys, count, op);
      ghost var mid := dev.image;
      ChunkMoved(cls, op, off, img, mid, buf0, buf[..], pos, Max(retval, 0), count);
      if page > 0 {
        ghost var log := dev.log;
        var ret := Select(client, 0);
        if ret < 0 {
          AbandonedSince(old(dev.log), log, dev.log, Put(client, 127, [0]), retries);
          restoreFaults := restoreFaults + 1;
          if retval == 0 {
            retval := ret;
          }
        }
      }
    }

    /** Reads one register of the first address. */
    method Probe(reg: nat) returns (status: int, regval: byte)
      requires Valid() && reg < 256
      modifies dev`log, this`errors
      ensures errors == old(errors) + if status < 0 then [status] else []
      ensures status >= 0 ==> regval == View(dev.image, dev.cls, 0, reg)
    {
      var buf := new byte[1];
      status := EepromRead(0, buf, 0, reg, 1);
      assert status > 0 ==> buf[0] == buf[0..0 + status][0];
      regval := buf[0];
    }

    /** The part of the request the module supports: 0 past its end, negative when a probe fails. */
    method PageLegal(off: int, len: nat) returns (status: int)
      requires Valid() && len > 0
      modifies dev`log, this`errors
      ensures var size := match dev.cls
                          case OneAddr => if dev.image.lower[2] % 8 >= 4 then 256 else 257 * 128
                          case Cmis => if dev.image.lower[2] >= 128 then 256 else 257 * 128
                          case TwoAddr =>
                            if dev.image.a0[0x40] % 32 >= 16 then 259 * 128
                            else if dev.image.a0[92] % 128 >= 64 then 512 else 256;
              status >= 0 ==>
                status == if off >= size then 0 else if len > size - off then size - off else len
      ensures status >= 0 ==> off >= 0 && status == Clamp(Capacity(dev.image, dev.cls), off, len)
      ensures off < 0 ==> status == -EINVAL && dev.log == old(dev.log)
      ensures off >= 0 && (off + len <= 256 || off >= Size(dev.cls)) ==>
                dev.log == old(dev.log) && status == if off + len <= 256 then len else 0
      ensures errors == old(errors) + if off >= 0 && status < 0 then [status] else []
    {
      CapacityByBytes(dev.image, dev.cls);
      if off < 0 {
        return -EINVAL;
      }
      var regval;
      if dev.cls.TwoAddr? {
        if off + len <= TWO_ADDR_NO_0X51_SIZE {
          return len;
        }
        if off >= TWO_ADDR_SIZE {
          return 0;
        }
        status, regval := Probe(0x40);
        if status < 0 {
          return;
        }
        var maxlen;
        if Bit(regval, 4) {
          maxlen := TWO_ADDR_SIZE - off;
        } else {
          if off >= TWO_ADDR_UNPAGED_SIZE {
            return 0;
          }
          status, regval := Probe(92);
          if status < 0 {
            return;
          }
          if Bit(regval, 6) {
            maxlen := TWO_ADDR_UNPAGED_SIZE - off;
          } else {
            if off >= TWO_ADDR_NO_0X51_SIZE {
              return 0;
            }
            maxlen := TWO_ADDR_NO_0X51_SIZE - off;
          }
        }
        status := if len > maxlen then maxlen else len;
      } else {
        if off + len <= ONE_ADDR_UNPAGED_SIZE {
          return len;
        }
        if off >= ONE_ADDR_SIZE {
          return 0;
        }
        status, regval := Probe(0x02);
        if status < 0 {
          return;
        }
        var notPageable := Bit(regval, if dev.cls.OneAddr? then 2 else 7);
        var maxlen;
        if notPageable {
          if off >= ONE_ADDR_UNPAGED_SIZE {
            return 0;
          }
          maxlen := ONE_ADDR_UNPAGED_SIZE - off;
        } else {
          maxlen := ONE_ADDR_SIZE - off;
        }
        status := if len > maxlen then maxlen else len;
      }
    }

    /**
     The whole access: clamp, then chunk by chunk. Whatever fails, a positive result counts the
     leading bytes transferred and no other byte was; the register ends at 0 or as those bytes left
     it, unless it could not be put back.
     */
    method ReadWrite(buf: array<byte>, off: int, len: nat, op: Opcode) returns (ret: int)
      requires Valid() && len <= buf.Length
      modifies buf, dev, this`restoreFaults, this`errors
      ensures Valid() && restoreFaults >= old(restoreFaults)
      ensures off < 0 ==> ret == (if len == 0 then 0 else -EINVAL) && errors == old(errors)
      ensures off >= 0 ==> FirstError(old(errors), errors, ret)
      ensures ret > 0 ==> off >= 0 && ret <= Clamp(Capacity(old(dev.image), dev.cls), off, len)
      ensures off >= 0 && Clamp(Capacity(old(dev.image), dev.cls), off, len) > 0 ==>
                Reached(dev.cls, op, off, old(dev.image), dev.image, old(buf[..]), buf[..], 0, Max(ret, 0),
                        Clamp(Capacity(old(dev.image), dev.cls), off, len))
      ensures off < 0 || Clamp(Capacity(old(dev.image), dev.cls), off, len) == 0 ==>
                dev.image == old(dev.image) && buf[..] == old(buf[..]) && restoreFaults == old(restoreFaults)
      ensures restoreFaults == old(restoreFaults) ==>
                dev.image.PageReg() == 0 || dev.image.PageReg() ==
                  if ret > 0 then Expected(dev.cls, op, off, old(dev.image), old(buf[0..ret])).PageReg()
                  else old(dev.image).PageReg()
      ensures off >= 0 ==>
                (ret == Clamp(Capacity(old(dev.image), dev.cls), off, len) <==>
                 TransferErrors() == old(TransferErrors()))
      ensures errors == old(errors) ==> restoreFaults == old(restoreFaults)
    {
      if len == 0 {
        return 0;
      }
      var status := PageLegal(off, len);
      if status <= 0 {
        assert off >= 0 && Clamp(Capacity(dev.image, dev.cls), off, len) > 0 ==>
          SameButRegister(dev.image, dev.image) && buf[0..0] == [] by {
          WithRegIsSameButRegister(dev.image, 0);
        }
        return status;
      }
      ret := ChunkLoop(buf, off, status, op);
    }

    /** One turn of the chunk loop. */
    method ProcessChunk(buf: array<byte>, off: nat, len: nat, pending: nat, chunk: nat, op: Opcode,
                        ghost img: Image, ghost buf0: seq<byte>, ghost spoiled: nat)
      returns (status: int, chunkLen: nat)
      requires Valid() && 0 < pending <= len <= buf.Length && off + len <= Size(dev.cls) && spoiled <= restoreFaults
      requires chunk * 128 <= off + len - pending < (chunk + 1) * 128
      requires pending == len || off + len - pending == chunk * 128
      requires Progress(dev.cls, op, off, img, dev.image, buf0, buf[..], len - pending, len, restoreFaults == spoiled)
      modifies buf, dev, this`restoreFaults, this`errors
      ensures Valid() && restoreFaults >= old(restoreFaults)
      ensures FirstError(old(errors), errors, status)
      ensures TransferErrors() == old(TransferErrors()) + if status == chunkLen then 0 else 1
      ensures status != 0 && status <= chunkLen && 0 < chunkLen <= pending
      ensures chunkLen == pending || off + len - pending + chunkLen == (chunk + 1) * 128
      ensures off + len - pending + chunkLen <= (chunk + 1) * 128
      ensures Progress(dev.cls, op, off, img, dev.image, buf0, buf[..], len - pending + Max(status, 0), len,
                       restoreFaults == spoiled)
    {
      hide Progress, Reached, Expected, Locate;
      ghost var img1, buf1, putBack := dev.image, buf[..], restoreFaults == spoiled;
      var done := len - pending;
      var chunkOffset;
      chunkOffset, chunkLen := ChunkBounds(off, pending, chunk, done);
      status := UpdateClient(buf, done, chunkOffset, chunkLen, op);
      assert buf1[done..done + Max(status, 0)] == old(buf[done..done + Max(status, 0)]);
      ProgressStep(dev.cls, op, off, img, img1, dev.image, buf0, buf1, buf[..], done, Max(status, 0), chunkLen, len,
                   putBack, restoreFaults == spoiled);
    }

    method ChunkLoop(buf: array<byte>, off: nat, len: nat, op: Opcode) returns (retval: int)
      requires Valid() && 0 < len <= buf.Length && off + len <= Size(dev.cls)
      modifies buf, dev, this`restoreFaults, this`errors
      ensures Valid() && restoreFaults >= old(restoreFaults)
      ensures FirstError(old(errors), errors, retval)
      ensures TransferErrors() == old(TransferErrors()) + if retval == len then 0 else 1
      ensures retval != 0 && retval <= len
      ensures Progress(dev.cls, op, off, old(dev.image), dev.image, old(buf[..]), buf[..], Max(retval, 0), len,
                       restoreFaults == old(restoreFaults))
    {
      hide Progress, Reached;
      ghost var img, buf0 := dev.image, buf[..];
      ProgressStart(dev.cls, op, off, img, buf0, len);
      var pending := len;
      retval := 0;
      var chunk, last := off / 128, (off + len - 1) / 128;
      while chunk <= last
        invariant 0 <= retval == len - pending <= len
        invariant chunk <= last <==> pending > 0
        invariant pending > 0 ==> chunk * 128 <= off + retval < (chunk + 1) * 128
        invariant pending > 0 ==> retval == 0 || off + retval == chunk * 128
        invariant Valid() && restoreFaults >= old(restoreFaults)
        invariant old(errors) <= errors && (retval == 0 ==> errors == old(errors))
        invariant TransferErrors() == old(TransferErrors())
        invariant Progress(dev.cls, op, off, img, dev.image, buf0, buf[..], retval, len,
                           restoreFaults == old(restoreFaults))
        decreases pending
      {
        var status, chunkLen := ProcessChunk(buf, off, len, pending, chunk, op, img, buf0, old(restoreFaults));
        if status != chunkLen {
          if status > 0 {
            retval := retval + status;
          }
          if retval == 0 {
            retval := status;
          }
          return;
        }
        pending := pending - status;
        retval := retval + status;
        chunk := chunk + 1;
      }
    }

    /**
     Reading as a user sees it: with the page register at 0, a positive result counts leading bytes
     of the request that equal the flat array, and nothing in the module changes.
     */
    method BinRead(buf: array<byte>, off: int, len: nat) returns (ret: int)
      requires Valid() && len <= buf.Length
      modifies buf, dev, this`restoreFaults, this`errors
      ensures Valid() && restoreFaults >= old(restoreFaults)
      ensures off < 0 ==> ret == (if len == 0 then 0 else -EINVAL) && errors == old(errors)
      ensures off >= 0 ==> FirstError(old(errors), errors, ret)
      ensures ret > 0 ==> off >= 0 && ret <= Requested(old(dev.image), dev.cls, off, len)
      ensures old(dev.image.PageReg()) == 0 && ret > 0 ==>
                buf[..ret] == Flat(old(dev.image), dev.cls)[off..off + ret]
      ensures old(dev.image.PageReg()) == 0 && restoreFaults == old(restoreFaults) ==> dev.image == old(dev.image)
      ensures off >= 0 ==>
                (ret == Requested(old(dev.image), dev.cls, off, len) <==> TransferErrors() == old(TransferErrors()))
      ensures errors == old(errors) ==> restoreFaults == old(restoreFaults)
    {
      ghost var img := dev.image;
      ret := ReadWrite(buf, off, len, ReadOp);
      if img.PageReg() == 0 {
        if ret > 0 {
          PeekRangeIsFlatSlice(img, dev.cls, off, ret);
          assert buf[..][0..ret] == buf[..ret];
        }
        if restoreFaults == old(restoreFaults) {
          SameRegisterSameImage(img, dev.image);
        }
      }
    }

    /**
     Writing as a user sees it: with the page register at 0 and a safe request, the module changes
     as a flat array would, on exactly the leading bytes that the result counts.
     */
    method BinWrite(buf: array<byte>, off: int, len: nat) returns (ret: int)
      requires Valid() && len <= buf.Length
      modifies buf, dev, this`restoreFaults, this`errors
      ensures Valid() && restoreFaults >= old(restoreFaults)
      ensures off < 0 ==> ret == (if len == 0 then 0 else -EINVAL) && errors == old(errors)
      ensures off >= 0 ==> FirstError(old(errors), errors, ret)
      ensures buf[..] == old(buf[..])
      ensures ret > 0 ==> off >= 0 && ret <= Requested(old(dev.image), dev.cls, off, len)
      ensures old(dev.image.PageReg()) == 0 && (off >= 0 ==> SafeWrite(dev.cls, off, old(buf[..len])))
              && restoreFaults == old(restoreFaults) ==>
                && dev.image.PageReg() == 0
                && Flat(dev.image, dev.cls)
                   == if ret > 0 then Splice(Flat(old(dev.image), dev.cls), off, old(buf[..ret]))
                      else Flat(old(dev.image), dev.cls)
      ensures off >= 0 ==>
                (ret == Requested(old(dev.image), dev.cls, off, len) <==> TransferErrors() == old(TransferErrors()))
      ensures errors == old(errors) ==> restoreFaults == old(restoreFaults)
    {
      ghost var img, d := dev.image, buf[..len];
      ret := ReadWrite(buf, off, len, WriteOp);
      if img.PageReg() == 0 && (off >= 0 ==> SafeWrite(dev.cls, off, d)) && restoreFaults == old(restoreFaults) {
        if ret > 0 {
          assert old(buf[..ret]) == old(buf[..])[0..ret] == d[..ret];
          PokeAllUpdatesFlat(img, dev.cls, off, d[..ret]);
          SameRegisterSameImage(PokeAll(img, dev.cls, off, d[..ret]), dev.image);
        } else {
          assert old(buf[..])[0..0] == [];
          SameRegisterSameImage(img, dev.image);
        }
      }
    }

    /** A run of requests in which no write puts a nonzero value on the select byte. */
    method Session(reqs: seq<Request>) returns (log: seq<Entry>)
      requires Valid() && dev.image.PageReg() == 0
      requires forall i :: 0 <= i < |reqs| ==> SafeRequest(dev.cls, reqs[i])
      modifies dev, this`restoreFaults, this`errors
      ensures Valid() && |log| == |reqs|
      ensures forall i :: 0 <= i < |log| ==> log[i].req == reqs[i]
      ensures restoreFaults == old(restoreFaults) ==>
                && dev.image.PageReg() == 0
                && PlainRun(dev.cls, Flat(old(dev.image), dev.cls), log)
                && Flat(dev.image, dev.cls) == Replay(Flat(old(dev.image), dev.cls), log)
      ensures errors == old(errors) ==>
                && restoreFaults == old(restoreFaults)
                && forall i :: 0 <= i < |log| ==>
                     log[i].Complete(dev.cls, Replay(Flat(old(dev.image), dev.cls), log[..i]))
    {
      hide Flat, FlatCapacity, Capacity, Entry.Effect, Entry.Plain, Entry.Complete, SafeRequest, Size, Image.Valid;
      ghost var f0 := Flat(dev.image, dev.cls);
      log := [];
      for i := 0 to |reqs|
        invariant Valid() && |log| == i
        invariant forall j :: 0 <= j < i ==> log[j].req == reqs[j]
        invariant restoreFaults >= old(restoreFaults) && old(errors) <= errors
        invariant restoreFaults == old(restoreFaults) ==>
                    && dev.image.PageReg() == 0
                    && PlainRun(dev.cls, f0, log)
                    && Flat(dev.image, dev.cls) == Replay(f0, log)
        invariant errors == old(errors) ==>
                    && restoreFaults == old(restoreFaults)
                    && forall j :: 0 <= j < |log| ==> log[j].Complete(dev.cls, Replay(f0, log[..j]))
      {
        ghost var log0 := log;
        CapacityOfFlat(dev.image, dev.cls);
        var entry := Serve(reqs[i]);
        log := log + [entry];
        assert log[..i] == log0;
        assert forall j :: 0 <= j < i ==> log[..j] == log0[..j];
      }
    }

    method Serve(req: Request) returns (e: Entry)
      requires Valid() && SafeRequest(dev.cls, req)
      modifies dev, this`restoreFaults, this`errors
      ensures Valid() && e.req == req
      ensures old(errors) <= errors && restoreFaults >= old(restoreFaults)
      ensures old(dev.image.PageReg()) == 0 && restoreFaults == old(restoreFaults) ==>
                && dev.image.PageReg() == 0
                && Flat(dev.image, dev.cls) == e.Effect(Flat(old(dev.image), dev.cls))
      ensures old(dev.image.PageReg()) == 0 ==> e.Plain(dev.cls, Flat(old(dev.image), dev.cls))
      ensures errors == old(errors) ==>
                e.Complete(dev.cls, Flat(old(dev.image), dev.cls)) && restoreFaults == old(restoreFaults)
    {
      CapacityOfFlat(dev.image, dev.cls);
      match req
      case ReadReq(off, len) =>
        var buf := new byte[len](_ => 0);
        var ret := BinRead(buf, off, len);
        e := Entry(req, ret, if 0 < ret <= len then buf[..ret] else []);
      case WriteReq(off, data) =>
        var buf := new byte[|data|](i requires 0 <= i < |data| => data[i]);
        assert buf[..|data|] == buf[..] == data;
        var ret := BinWrite(buf, off, |data|);
        e := Entry(req, ret, if 0 < ret <= |data| then data[..ret] else []);
    }
  }
}
