/**
 The GPU dma-buf registration cache as its clients see it: a set of declared regions and a set of
 memory regions (MRs) registered for them. Nothing here mentions trees or neighbours; the module
 DmabufDomain proves that the tree-based code takes only steps of `Next`.
 */
module DmabufSpec {
  import opened Machine

  datatype Region = Region(addr: Word, len: Word, device: int)

  /** What `ibv_reg_dmabuf_mr` hands out: an identity and the two RDMA keys. */
  datatype IbvMr = IbvMr(id: nat, lkey: nat, rkey: nat)

  datatype Mr = Mr(addr: Word, len: Word, device: int, pd: Word, mr: IbvMr)

  datatype Status =
    | Success | EInval | ENoMem | EExist | ENoDev | EFault | ENotSup
    | Errno(code: nat)   // passed through from ibv_reg_dmabuf_mr

  function RegionOf(m: Mr): Region {
    Region(m.addr, m.len, m.device)
  }

  /** The containment test of the C code, with the end of both ranges computed modulo 2^64. */
  predicate RangeContains(start: Word, len: Word, addr: Word, n: Word) {
    addr >= start && AddW(addr, n) >= addr && AddW(addr, n) <= AddW(start, len)
  }

  /** The overlap test of the C code, with the end of both ranges computed modulo 2^64. */
  predicate RangeOverlaps(start: Word, len: Word, addr: Word, n: Word) {
    && AddW(addr, n) > addr && AddW(start, len) > start
    && addr < AddW(start, len) && start < AddW(addr, n)
  }

  predicate Holds(r: Region, addr: Word, n: Word) {
    RangeContains(r.addr, r.len, addr, n)
  }

  predicate Meets(r: Region, addr: Word, n: Word) {
    RangeOverlaps(r.addr, r.len, addr, n)
  }

  datatype Cache = Cache(regions: set<Region>, mrs: set<Mr>)

  /** The region is not empty and its end is an address. */
  ghost predicate Ordinary(r: Region) {
    r.len > 0 && r.addr + r.len < WORD_SPAN
  }

  ghost predicate Disjoint(a: Region, b: Region) {
    a.addr + a.len <= b.addr || b.addr + b.len <= a.addr
  }

  /** No byte belongs to two regions. */
  ghost predicate SeparateRegions(regions: set<Region>) {
    && (forall r <- regions :: Ordinary(r))
    && (forall a <- regions, b <- regions :: a != b ==> Disjoint(a, b))
  }

  /** The invariant the code relies on and never states. */
  ghost predicate Inv(c: Cache) {
    && SeparateRegions(c.regions)
    && (forall m <- c.mrs :: RegionOf(m) in c.regions)
    && (forall m <- c.mrs, n <- c.mrs :: RegionOf(m) == RegionOf(n) && m.pd == n.pd ==> m == n)
  }

  // ----- the calls -----

  /** What the lookup of the destination's protection domain gives. */
  datatype PdReply = Pd(pd: Word) | NoPd(rc: Status)

  datatype Call =
    | Register(pd: PdReply, addr: Word, len: Word, device: Option<int>, rc: Status)
    | Translate(pd: PdReply, addr: Word, len: Word, rc: Status, keys: Option<IbvMr>)
    | Invalidate(addr: Word, len: Word)

  ghost predicate Declared(c: Cache, addr: Word, len: Word) {
    exists r :: r in c.regions && Holds(r, addr, len)
  }

  ghost predicate Crossed(c: Cache, addr: Word, len: Word) {
    exists r :: r in c.regions && Meets(r, addr, len)
  }

  ghost predicate Cached(c: Cache, r: Region, pd: Word, mr: IbvMr) {
    Mr(r.addr, r.len, r.device, pd, mr) in c.mrs
  }

  /** Serves region `r` to `pd`: the cached MR if there is one, else one registration attempt. */
  ghost predicate Serve(c: Cache, r: Region, pd: Word, rc: Status, keys: Option<IbvMr>, c': Cache) {
    if exists mr :: Cached(c, r, pd, mr) then
      c' == c && rc == Success && keys.Some? && Cached(c, r, pd, keys.value)
    else if rc == Success then
      keys.Some? && c' == c.(mrs := c.mrs + {Mr(r.addr, r.len, r.device, pd, keys.value)})
    else
      c' == c && rc != EExist && keys.None?
  }

  /**
   Declares a range: a range inside a region of the same device is already declared, a range that
   crosses a region or lies in another device's region is refused, any other becomes a region.
   */
  ghost predicate DeclareStep(c: Cache, addr: Word, len: Word, device: int,
                              rc: Status, region: Option<Region>, d: Cache)
  {
    match region
    case Some(r) =>
      && r.device == device
      && if Declared(c, addr, len) then d == c && r in c.regions && Holds(r, addr, len)
         else !Crossed(c, addr, len) && r == Region(addr, len, device) && d == c.(regions := c.regions + {r})
    case None =>
      && d == c
      && if Declared(c, addr, len)
         then rc == EInval && exists q :: q in c.regions && Holds(q, addr, len) && q.device != device
         else rc == (if Crossed(c, addr, len) then EInval else ENoMem)
  }

  ghost predicate RegisterStep(c: Cache, pd: PdReply, addr: Word, len: Word, device: Option<int>,
                               rc: Status, c': Cache)
  {
    if addr == 0 || len == 0 then c' == c && rc == EInval
    else if pd.NoPd? then c' == c && rc == pd.rc
    else if device.None? then c' == c && rc == EFault
    else
      exists region, d :: DeclareStep(c, addr, len, device.value, rc, region, d) &&
        match region
        case None => c' == d
        case Some(r) => exists keys :: Serve(d, r, pd.pd, rc, keys, c')
  }

  ghost predicate TranslateStep(c: Cache, pd: PdReply, addr: Word, len: Word,
                                rc: Status, keys: Option<IbvMr>, c': Cache)
  {
    if pd.NoPd? then c' == c && rc == pd.rc && keys.None?
    else if !Declared(c, addr, len) then c' == c && rc == EInval && keys.None?
    else
      exists r :: r in c.regions && Holds(r, addr, len) &&
        (Serve(c, r, pd.pd, rc, keys, c') || ServedByNeighbour(c, r, pd.pd, addr, len, rc, keys, c'))
  }

  /** An empty range on the boundary of two regions may be answered with the other region's MR. */
  ghost predicate ServedByNeighbour(c: Cache, r: Region, pd: Word, addr: Word, len: Word,
                                    rc: Status, keys: Option<IbvMr>, c': Cache)
  {
    && len == 0 && c' == c && rc == Success && keys.Some?
    && exists q :: q in c.regions && q.device == r.device && Holds(q, addr, len) &&
                   Cached(c, q, pd, keys.value)
  }

  ghost predicate InvalidateStep(c: Cache, addr: Word, len: Word, c': Cache) {
    if addr == 0 || len == 0 then c' == c
    else
      && c'.regions == (set r | r in c.regions && !Meets(r, addr, len))
      && c'.mrs == (set m | m in c.mrs && !RangeOverlaps(m.addr, m.len, addr, len))
  }

  ghost predicate Next(c: Cache, call: Call, c': Cache) {
    match call
    case Register(pd, addr, len, device, rc) => RegisterStep(c, pd, addr, len, device, rc, c')
    case Translate(pd, addr, len, rc, keys) => TranslateStep(c, pd, addr, len, rc, keys, c')
    case Invalidate(addr, len) => InvalidateStep(c, addr, len, c')
  }

  /** For a real region the machine's containment test is that of the integers. */
  lemma HoldsExact(r: Region, addr: Word, len: Word)
    requires Ordinary(r)
    ensures Holds(r, addr, len) <==> r.addr <= addr && addr + len <= r.addr + r.len
  {
  }

  /** For a real region and a real range the machine's overlap test is that of the integers. */
  lemma MeetsExact(r: Region, addr: Word, len: Word)
    requires Ordinary(r) && len > 0 && addr + len < WORD_SPAN
    ensures Meets(r, addr, len) <==> r.addr < addr + len && addr < r.addr + r.len
  {
  }

  // ----- runs -----

  /** A registration whose end is not an address: the code neither rejects nor supports it. */
  predicate Wraps(call: Call) {
    call.Register? && call.addr + call.len >= WORD_SPAN
  }

  const EMPTY := Cache({}, {})

  ghost predicate IsRun(trace: seq<Cache>, calls: seq<Call>) {
    && |trace| == |calls| + 1
    && trace[0] == EMPTY
    && (forall i :: 0 <= i < |calls| ==> !Wraps(calls[i]) && Next(trace[i], calls[i], trace[i + 1]))
  }

  lemma ServeKeepsInv(c: Cache, r: Region, pd: Word, rc: Status, keys: Option<IbvMr>, c': Cache)
    requires Inv(c) && r in c.regions && Serve(c, r, pd, rc, keys, c')
    ensures Inv(c') && c'.regions == c.regions && c.mrs <= c'.mrs
    ensures rc == Success ==> keys.Some? && Cached(c', r, pd, keys.value)
  {
    if c' != c {
      var added := Mr(r.addr, r.len, r.device, pd, keys.value);
      forall m <- c.mrs | RegionOf(m) == r && m.pd == pd ensures false {
        assert Cached(c, r, pd, m.mr);
      }
      assert c'.mrs == c.mrs + {added} && RegionOf(added) == r;
    }
  }

  lemma DeclareKeepsInv(c: Cache, r: Region)
    requires Inv(c) && Ordinary(r)
    requires !Crossed(c, r.addr, r.len)
    ensures Inv(c.(regions := c.regions + {r}))
  {
    forall q <- c.regions ensures Disjoint(q, r) {
      assert !Meets(q, r.addr, r.len);
    }
  }

  /** A registration that changes anything declares a region and then serves it. */
  lemma RegisterWitness(c: Cache, pd: PdReply, addr: Word, len: Word, device: Option<int>, rc: Status, c': Cache)
    returns (r: Region, d: Cache, keys: Option<IbvMr>)
    requires Inv(c) && addr + len < WORD_SPAN && RegisterStep(c, pd, addr, len, device, rc, c') && c' != c
    ensures addr != 0 && len != 0 && pd.Pd? && device.Some?
    ensures DeclareStep(c, addr, len, device.value, rc, Some(r), d) && Serve(d, r, pd.pd, rc, keys, c')
    ensures Inv(d) && r in d.regions && c'.regions == d.regions && d.mrs == c.mrs <= c'.mrs
    ensures d.regions == c.regions || d.regions == c.regions + {Region(addr, len, device.value)}
  {
    var region, d' :| DeclareStep(c, addr, len, device.value, rc, region, d') &&
                      region.Some? && exists keys :: Serve(d', region.value, pd.pd, rc, keys, c');
    r, d := region.value, d';
    keys :| Serve(d, r, pd.pd, rc, keys, c');
    if d != c { DeclareKeepsInv(c, r); }
    ServeKeepsInv(d, r, pd.pd, rc, keys, c');
  }

  lemma NextKeepsInv(c: Cache, call: Call, c': Cache)
    requires Inv(c) && Next(c, call, c') && !Wraps(call)
    ensures Inv(c')
  {
    match call
    case Register(pd, addr, len, device, rc) =>
      if c' != c {
        var r, d, keys := RegisterWitness(c, pd, addr, len, device, rc, c');
        ServeKeepsInv(d, r, pd.pd, rc, keys, c');
      }
    case Translate(pd, addr, len, rc, keys) =>
      if c' != c {
        var r :| r in c.regions && Holds(r, addr, len) && Serve(c, r, pd.pd, rc, keys, c');
        ServeKeepsInv(c, r, pd.pd, rc, keys, c');
      }
    case Invalidate(addr, len) =>
  }

  /** Safety over whole runs: the invariant holds in every reachable state. */
  lemma {:induction false} ReachableInv(trace: seq<Cache>, calls: seq<Call>, i: nat)
    requires IsRun(trace, calls) && i <= |calls|
    ensures Inv(trace[i])
  {
    if i > 0 {
      ReachableInv(trace, calls, i - 1);
      assert Next(trace[i - 1], calls[i - 1], trace[i]);
      NextKeepsInv(trace[i - 1], calls[i - 1], trace[i]);
    }
  }

  /** MRs of one device and protection domain never share a byte. */
  lemma ReachableMrsDisjoint(trace: seq<Cache>, calls: seq<Call>, i: nat, m: Mr, n: Mr)
    requires IsRun(trace, calls) && i <= |calls|
    requires m in trace[i].mrs && n in trace[i].mrs && m != n
    requires m.device == n.device && m.pd == n.pd
    ensures m.addr + m.len <= n.addr || n.addr + n.len <= m.addr
    ensures !RangeOverlaps(m.addr, m.len, n.addr, n.len)
  {
    ReachableInv(trace, calls, i);
    assert Disjoint(RegionOf(m), RegionOf(n));
  }

  /** A non-empty range lies in at most one region. */
  lemma HolderUnique(c: Cache, r: Region, q: Region, addr: Word, len: Word)
    requires Inv(c) && r in c.regions && q in c.regions && len > 0
    requires Holds(r, addr, len) && Holds(q, addr, len)
    ensures r == q
  {
    assert r != q ==> Disjoint(r, q);
  }

  /** The invalidation takes the region: it gets past the guard and its machine range meets the region. */
  predicate Removes(call: Call, r: Region) {
    call.Invalidate? && call.addr != 0 && Meets(r, call.addr, call.len)
  }

  /** What one call leaves of a cached MR: everything but an invalidation that takes its region keeps it. */
  lemma NextKeepsMr(c: Cache, call: Call, c': Cache, r: Region, pd: Word, mr: IbvMr)
    requires Inv(c) && Next(c, call, c') && !Wraps(call)
    requires r in c.regions && Cached(c, r, pd, mr)
    requires !Removes(call, r)
    ensures r in c'.regions && Cached(c', r, pd, mr)
  {
    match call
    case Register(p, addr, len, device, rc) =>
      if c' != c {
        var _, _, _ := RegisterWitness(c, p, addr, len, device, rc, c');
      }
    case Translate(_, _, _, _, _) =>
    case Invalidate(_, _) =>
  }

  lemma {:induction false} MrPersists(trace: seq<Cache>, calls: seq<Call>, i: nat, j: nat,
                                      r: Region, pd: Word, mr: IbvMr)
    requires IsRun(trace, calls) && i <= j <= |calls|
    requires r in trace[i].regions && Cached(trace[i], r, pd, mr)
    requires forall k :: i <= k < j ==> !Removes(calls[k], r)
    ensures r in trace[j].regions && Cached(trace[j], r, pd, mr)
    decreases j - i
  {
    if i < j {
      MrPersists(trace, calls, i, j - 1, r, pd, mr);
      ReachableInv(trace, calls, j - 1);
      assert Next(trace[j - 1], calls[j - 1], trace[j]);
      NextKeepsMr(trace[j - 1], calls[j - 1], trace[j], r, pd, mr);
    }
  }

  /** A translation that succeeds returns the keys of an MR on the caller's pd that covers the range. */
  lemma TranslateCovers(c: Cache, pd: PdReply, addr: Word, len: Word, rc: Status,
                        keys: Option<IbvMr>, c': Cache) returns (r: Region)
    requires Inv(c) && TranslateStep(c, pd, addr, len, rc, keys, c')
    requires rc == Success && len > 0 && pd.Pd?
    ensures keys.Some? && r in c.regions && Holds(r, addr, len) && Cached(c', r, pd.pd, keys.value)
    ensures c'.regions == c.regions
    ensures r.addr <= addr && addr + len <= r.addr + r.len
  {
    r :| r in c.regions && Holds(r, addr, len) && Serve(c, r, pd.pd, rc, keys, c');
    ServeKeepsInv(c, r, pd.pd, rc, keys, c');
  }

  /**
   Key stability over runs. Once a translation has answered from region `r`, every later translation
   of a non-empty range of `r` for the same protection domain succeeds and returns the same keys,
   as long as no invalidation in between took `r`.
   */
  lemma KeysStable(trace: seq<Cache>, calls: seq<Call>, i: nat, j: nat, r: Region)
    requires IsRun(trace, calls) && i < j < |calls|
    requires calls[i].Translate? && calls[i].rc == Success && calls[i].len > 0 && calls[i].pd.Pd?
    requires r in trace[i].regions && Holds(r, calls[i].addr, calls[i].len)
    requires calls[j].Translate? && calls[j].pd == calls[i].pd && calls[j].len > 0
    requires Holds(r, calls[j].addr, calls[j].len)
    requires forall k :: i < k < j ==> !Removes(calls[k], r)
    ensures calls[j].rc == Success && calls[j].keys == calls[i].keys
  {
    var a, b := calls[i], calls[j];
    ReachableInv(trace, calls, i);
    ReachableInv(trace, calls, j);
    assert Next(trace[i], a, trace[i + 1]) && Next(trace[j], b, trace[j + 1]);
    var q := TranslateCovers(trace[i], a.pd, a.addr, a.len, a.rc, a.keys, trace[i + 1]);
    HolderUnique(trace[i], r, q, a.addr, a.len);
    MrPersists(trace, calls, i + 1, j, r, a.pd.pd, a.keys.value);
    assert Declared(trace[j], b.addr, b.len);
    var p :| p in trace[j].regions && Holds(p, b.addr, b.len) &&
             Serve(trace[j], p, b.pd.pd, b.rc, b.keys, trace[j + 1]);
    HolderUnique(trace[j], r, p, b.addr, b.len);
    var m, n := Mr(r.addr, r.len, r.device, a.pd.pd, a.keys.value),
                Mr(r.addr, r.len, r.device, a.pd.pd, b.keys.value);
    assert m in trace[j].mrs && n in trace[j].mrs;
    assert RegionOf(m) == RegionOf(n) && m.pd == n.pd;
  }

  /** No declared region shares a byte with the range. */
  ghost predicate Clear(c: Cache, addr: Word, len: Word) {
    forall r <- c.regions :: !Meets(r, addr, len)
  }

  /** Only a registration of an overlapping range can declare a region over a clear range again. */
  lemma {:induction false} StaysClear(trace: seq<Cache>, calls: seq<Call>, i: nat, j: nat, addr: Word, len: Word)
    requires IsRun(trace, calls) && i <= j <= |calls| && Clear(trace[i], addr, len)
    requires forall k :: i <= k < j && calls[k].Register? ==>
               !RangeOverlaps(calls[k].addr, calls[k].len, addr, len)
    ensures Clear(trace[j], addr, len)
    decreases j - i
  {
    if i < j {
      StaysClear(trace, calls, i, j - 1, addr, len);
      var c, call, c' := trace[j - 1], calls[j - 1], trace[j];
      assert Next(c, call, c');
      ReachableInv(trace, calls, j - 1);
      if call.Register? && c' != c {
        var _, _, _ := RegisterWitness(c, call.pd, call.addr, call.len, call.device, call.rc, c');
        assert !Meets(Region(call.addr, call.len, call.device.value), addr, len);
      } else {
        assert c'.regions <= c.regions;
      }
    }
  }

  /**
   After an invalidation every non-empty translation inside its range is refused and changes
   nothing, until a range that overlaps the invalidated one is registered again.
   */
  lemma InvalidatedRefused(trace: seq<Cache>, calls: seq<Call>, i: nat, j: nat)
    requires IsRun(trace, calls) && i < j < |calls|
    requires calls[i].Invalidate? && calls[i].addr != 0
    requires calls[j].Translate? && calls[j].pd.Pd? && calls[j].len > 0
    requires RangeContains(calls[i].addr, calls[i].len, calls[j].addr, calls[j].len)
    requires forall k :: i < k < j && calls[k].Register? ==>
               !RangeOverlaps(calls[k].addr, calls[k].len, calls[i].addr, calls[i].len)
    ensures calls[j].rc == EInval && trace[j + 1] == trace[j]
  {
    var addr, len := calls[i].addr, calls[i].len;
    ReachableInv(trace, calls, j);
    assert Next(trace[i], calls[i], trace[i + 1]) && Next(trace[j], calls[j], trace[j + 1]);
    StaysClear(trace, calls, i + 1, j, addr, len);
    forall r <- trace[j].regions ensures !Holds(r, calls[j].addr, calls[j].len) {
      assert Ordinary(r) && !Meets(r, addr, len);
    }
  }

  // ----- invalidations that take nothing -----

  /** The region and the range share a byte, in the integers. */
  predicate Touches(r: Region, addr: Word, len: Word) {
    r.addr < addr + len && addr < r.addr + r.len
  }

  /** The range starts at a usable address, is not empty and its end is an address. */
  predicate Effective(addr: Word, len: Word) {
    addr != 0 && len != 0 && addr + len < WORD_SPAN
  }

  /**
   An invalidation of a range that shares a byte with a declared region takes the region, and all its
   MRs, exactly when the range is effective; otherwise it takes nothing at all.
   */
  lemma InvalidationTakesIff(trace: seq<Cache>, calls: seq<Call>, i: nat, r: Region)
    requires IsRun(trace, calls) && i < |calls| && calls[i].Invalidate?
    requires r in trace[i].regions && Touches(r, calls[i].addr, calls[i].len)
    ensures Removes(calls[i], r) <==> Effective(calls[i].addr, calls[i].len)
    ensures trace[i + 1] != trace[i] <==> Effective(calls[i].addr, calls[i].len)
    ensures r !in trace[i + 1].regions <==> Effective(calls[i].addr, calls[i].len)
    ensures Effective(calls[i].addr, calls[i].len) ==> forall m <- trace[i + 1].mrs :: RegionOf(m) != r
  {
    var addr, len := calls[i].addr, calls[i].len;
    ReachableInv(trace, calls, i);
    assert Next(trace[i], calls[i], trace[i + 1]) && Ordinary(r);
    if addr != 0 && len != 0 && !Effective(addr, len) {
      assert trace[i + 1].regions == trace[i].regions && trace[i + 1].mrs == trace[i].mrs;
    }
  }

  /**
   Over runs: invalidations that are not effective leave the keys of a region in force, even those whose
   range covers the whole region.
   */
  lemma MissedKeepsKeys(trace: seq<Cache>, calls: seq<Call>, i: nat, j: nat, r: Region)
    requires IsRun(trace, calls) && i < j < |calls|
    requires calls[i].Translate? && calls[i].rc == Success && calls[i].len > 0 && calls[i].pd.Pd?
    requires r in trace[i].regions && Holds(r, calls[i].addr, calls[i].len)
    requires calls[j].Translate? && calls[j].pd == calls[i].pd && calls[j].len > 0
    requires Holds(r, calls[j].addr, calls[j].len)
    requires forall k :: i < k < j && calls[k].Invalidate? && Touches(r, calls[k].addr, calls[k].len) ==>
               !Effective(calls[k].addr, calls[k].len)
    ensures calls[j].rc == Success && calls[j].keys == calls[i].keys
  {
    ReachableInv(trace, calls, i);
    assert Ordinary(r);
    KeysStable(trace, calls, i, j, r);
  }

  /**
   A declared region, an invalidation from address 0 over it, one over it that wraps, and the region is
   still served.
   */
  lemma MissedExample()
    ensures var keys := IbvMr(1, 2, 3);
            var c := Cache({Region(0x1000, 0x1000, 0)}, {Mr(0x1000, 0x1000, 0, 7, keys)});
            var calls := [Register(Pd(7), 0x1000, 0x1000, Some(0), Success), Invalidate(0, 0x10000),
                          Invalidate(0x800, WORD_SPAN - 1), Translate(Pd(7), 0x1800, 0x100, Success, Some(keys))];
            && IsRun([EMPTY, c, c, c, c], calls)
            && Touches(Region(0x1000, 0x1000, 0), 0, 0x10000) &&
               Touches(Region(0x1000, 0x1000, 0), 0x800, WORD_SPAN - 1)
  {
    var keys := IbvMr(1, 2, 3);
    var r := Region(0x1000, 0x1000, 0);
    var c, d := Cache({r}, {Mr(0x1000, 0x1000, 0, 7, keys)}), Cache({r}, {});
    assert DeclareStep(EMPTY, 0x1000, 0x1000, 0, Success, Some(r), d);
    assert Serve(d, r, 7, Success, Some(keys), c);
    assert Next(EMPTY, Register(Pd(7), 0x1000, 0x1000, Some(0), Success), c);
    assert InvalidateStep(c, 0x800, WORD_SPAN - 1, c);
    assert Cached(c, r, 7, keys) && Holds(r, 0x1800, 0x100);
    assert Serve(c, r, 7, Success, Some(keys), c);
  }
}
