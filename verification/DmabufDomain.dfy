/**
 The memory domain object: the two trees, the per-device contexts and the calls that change them
 under the domain's lock. Replies of the GPU driver, of verbs and of the allocator are parameters.
 */
module DmabufDomain {
  import opened Machine
  import opened DmabufSpec
  import opened DmabufLookup
  import opened Ledger

  type Context = nat          // 0 is the null context
  const NO_CONTEXT: Context := 0

  datatype Resource = MrOf(entry: Mr) | DmabufFd(fd: nat) | PrimaryCtx(device: int)

  datatype CtxEntry = CtxEntry(device: int, ctx: Context)

  /** The arguments of ibv_reg_dmabuf_mr. */
  datatype RegArgs = RegArgs(pd: Word, offset: Word, len: Word, iova: Word, fd: nat)

  datatype RegReply = Registered(mr: IbvMr) | RegFailed(errno: nat)

  /** Everything foreign code may answer during one call. */
  datatype Replies = Replies(
    ptrDevice: Option<int>,            // gpu_pointer_get_attribute
    regionAlloc: bool, entryAlloc: bool, ctxAlloc: bool,   // calloc
    deviceGet: bool, retain: Option<Context>,
    getCurrent: bool, setCurrent: bool, setPrevious: bool,
    range: Option<(Word, Word)>,       // base and size of the allocation
    dmabuf: Option<nat>,               // dma-buf file descriptor
    reg: RegReply)

  /** Driver, verbs and allocator grant what a registration of the range asks of them. */
  predicate Cooperates(g: Replies, addr: Word, len: Word) {
    && g.entryAlloc && g.ctxAlloc && g.deviceGet && g.retain.Some? && g.getCurrent && g.setCurrent
    && g.range.Some? && g.range.value.0 <= addr && addr + len <= g.range.value.0 + g.range.value.1
    && g.dmabuf.Some? && g.reg.Registered?
  }

  /** Whether a context for the device can be had: the domain's own, or one retained for a real device. */
  predicate HasCtx(own: Context, device: int) {
    own != NO_CONTEXT || device >= 0
  }

  /** The device of a registration: the domain's, or that of the pointer. */
  function DeviceOf(deviceId: int, g: Replies): Option<int> {
    if deviceId >= 0 then Some(deviceId) else g.ptrDevice
  }

  /** Nothing foreign stands in the way of an MR for the region. */
  predicate Granted(own: Context, r: Region, g: Replies) {
    HasCtx(own, r.device) && Cooperates(g, r.addr, r.len)
  }

  /** Nothing but foreign code could refuse the range on this device, and it grants it. */
  ghost predicate GrantedOn(own: Context, c: Cache, device: int, addr: Word, len: Word, g: Replies) {
    if Declared(c, addr, len)
    then forall r <- c.regions :: Holds(r, addr, len) ==> r.device == device && Granted(own, r, g)
    else !Crossed(c, addr, len) && Granted(own, Region(addr, len, device), g)
  }

  /** Nothing but foreign code could refuse this registration, and it grants it. */
  ghost predicate RegisterReady(deviceId: int, own: Context, c: Cache, pd: PdReply, addr: Word, len: Word, g: Replies) {
    && addr != 0 && len != 0 && addr + len < WORD_SPAN && pd.Pd? && DeviceOf(deviceId, g).Some? && g.regionAlloc
    && GrantedOn(own, c, DeviceOf(deviceId, g).value, addr, len, g)
  }

  ghost predicate TranslateReady(own: Context, c: Cache, pd: PdReply, addr: Word, len: Word, g: Replies) {
    pd.Pd? && Declared(c, addr, len) && forall r <- c.regions :: Holds(r, addr, len) ==> Granted(own, r, g)
  }

  ghost predicate KeyUnused(c: Cache, addr: Word) {
    forall q <- c.regions :: q.addr != addr
  }

  /** The keys are those of a cached MR on the protection domain. */
  ghost predicate InCache(mrs: seq<Mr>, pd: Word, keys: IbvMr) {
    exists m :: m in mrs && m.pd == pd && m.mr == keys
  }

  /** The keys are those of an MR on the protection domain that was registered with verbs. */
  ghost predicate WasAcquired(log: Log<Resource>, pd: Word, keys: IbvMr) {
    exists m: Mr :: m.pd == pd && m.mr == keys && Acquisitions(log, MrOf(m)) > 0
  }

  lemma StaysAcquired(p: Log<Resource>, log: Log<Resource>, pd: Word, keys: IbvMr)
    requires PrefixOf(p, log) && WasAcquired(p, pd, keys)
    ensures WasAcquired(log, pd, keys)
  {
    var m: Mr :| m.pd == pd && m.mr == keys && Acquisitions(p, MrOf(m)) > 0;
    PrefixCounts(p, log, MrOf(m));
  }

  ghost predicate OnePerDevice(ctxs: seq<CtxEntry>) {
    forall i, j :: 0 <= i < j < |ctxs| ==> ctxs[i].device != ctxs[j].device
  }

  ghost predicate Retained(ctxs: seq<CtxEntry>, device: int) {
    exists e :: e in ctxs && e.device == device
  }

  type CtxList = ctxs: seq<CtxEntry> | OnePerDevice(ctxs) witness []

  /** The calls of one import attempt: a descriptor is exported and closed, an MR may stay. */
  function ImportCalls(log: Log<Resource>, fd: nat, m: Mr, reg: RegReply, kept: bool): Log<Resource> {
    var exported := Acquired(log, DmabufFd(fd));
    match reg
    case RegFailed(_) => Released(exported, DmabufFd(fd))
    case Registered(_) =>
      var imported := Released(Acquired(exported, MrOf(m)), DmabufFd(fd));
      if kept then imported else Released(imported, MrOf(m))
  }

  lemma ImportExtends(log: Log<Resource>, fd: nat, m: Mr, reg: RegReply, kept: bool)
    ensures PrefixOf(log, ImportCalls(log, fd, m, reg, kept))
  {
    var exported := Acquired(log, DmabufFd(fd));
    assert PrefixOf(log, exported);
    assert PrefixOf(exported, Released(Acquired(exported, MrOf(m)), DmabufFd(fd)));
    PrefixTrans(log, exported, Released(Acquired(exported, MrOf(m)), DmabufFd(fd)));
  }

  lemma ImportBalanced(log: Log<Resource>, fd: nat, m: Mr, reg: RegReply, kept: bool)
    requires Disciplined(log)
    ensures Disciplined(ImportCalls(log, fd, m, reg, kept))
    ensures forall r :: Held(ImportCalls(log, fd, m, reg, kept), r) ==
                        Held(log, r) + if r == MrOf(m) && reg.Registered? && kept then 1 else 0
  {
    var exported := Acquired(log, DmabufFd(fd));
    Conservation(log, log, DmabufFd(fd));
    Conservation(log, log, MrOf(m));
    assert forall r :: Held(exported, r) == Held(log, r) + if r == DmabufFd(fd) then 1 else 0;
    var both := Acquired(exported, MrOf(m));
    assert forall r :: Held(both, r) == Held(exported, r) + if r == MrOf(m) then 1 else 0;
    var imported := Released(both, DmabufFd(fd));
    assert Disciplined(imported);
    assert forall r :: Held(imported, r) == Held(both, r) - if r == DmabufFd(fd) then 1 else 0;
  }

  /** RB_REMOVE of the entry at position i. */
  function RemoveAt<T>(tree: seq<T>, i: nat): (out: seq<T>)
    requires i < |tree|
    ensures |out| == |tree| - 1
    ensures forall k :: 0 <= k < |out| ==> out[k] == if k < i then tree[k] else tree[k + 1]
    ensures forall y <- out :: y in tree
    ensures forall y <- tree :: y in out || y == tree[i]
  {
    assert tree == tree[..i] + [tree[i]] + tree[i + 1..];
    tree[..i] + tree[i + 1..]
  }

  lemma FindersAgree(regions: RegionTree, addr: Word, len: Word)
    ensures SeparateRegions(RegionSet(regions)) ==>
              && (FindRegion(regions, addr, len).Some? <==> exists r :: r in RegionSet(regions) && Holds(r, addr, len))
              && (FindOverlappingRegion(regions, addr, len).Some? <==>
                  exists r :: r in RegionSet(regions) && Meets(r, addr, len))
  {
    if SeparateRegions(RegionSet(regions)) {
      FindRegionComplete(regions, addr, len);
      FindOverlappingRegionComplete(regions, addr, len);
      assert forall r :: r in regions <==> r in RegionSet(regions);
    }
  }

  /** A range that holds and meets nothing has a key of its own, if it does not wrap; if it does, it always passes. */
  lemma NewRegionKeyFree(regions: RegionTree, addr: Word, len: Word)
    ensures SeparateRegions(RegionSet(regions)) ==>
              && (FindRegion(regions, addr, len).Some? <==> exists r :: r in RegionSet(regions) && Holds(r, addr, len))
              && (FindOverlappingRegion(regions, addr, len).Some? <==>
                  exists r :: r in RegionSet(regions) && Meets(r, addr, len))
              && (FindOverlappingRegion(regions, addr, len).None? && 0 < len && addr + len < WORD_SPAN ==>
                  forall q <- regions :: q.addr != addr)
    ensures 0 < len && addr + len >= WORD_SPAN ==>
              FindRegion(regions, addr, len).None? && FindOverlappingRegion(regions, addr, len).None?
  {
    FindersAgree(regions, addr, len);
    if SeparateRegions(RegionSet(regions)) && 0 < len && addr + len < WORD_SPAN {
      forall q <- regions | q.addr == addr ensures Meets(q, addr, len) {
        assert q in RegionSet(regions) && Ordinary(q);
      }
    }
  }

  /** A registration of a range that meets no region, if it succeeds, declares just that range for the device. */
  lemma NewRangeDeclared(c: Cache, pd: PdReply, addr: Word, len: Word, device: int, rc: Status, c': Cache)
    requires Inv(c) && addr != 0 && len != 0 && addr + len < WORD_SPAN && pd.Pd?
    requires RegisterStep(c, pd, addr, len, Some(device), rc, c')
    ensures (forall r <- c.regions :: r.addr + r.len <= addr || addr + len <= r.addr) ==>
              !Declared(c, addr, len) && !Crossed(c, addr, len)
    ensures (forall r <- c.regions :: r.addr + r.len <= addr || addr + len <= r.addr) && rc == Success ==>
              Region(addr, len, device) in c'.regions
  {
    forall r <- c.regions | r.addr + r.len <= addr || addr + len <= r.addr
      ensures !Holds(r, addr, len) && !Meets(r, addr, len)
    {
      HoldsExact(r, addr, len);
      MeetsExact(r, addr, len);
    }
  }

  class GpuDomain {
    var regions: RegionTree
    var mrCache: MrTree
    var cudaCtxs: CtxList
    const cudaDeviceId: int
    const cudaCtx: Context
    const ownsCtx: bool

    var current: Context                    // the calling thread's current GPU context
    var log: Log<Resource>           // acquire and release calls made so far
    var lastReg: Option<RegArgs>            // arguments of the latest MR registration
    var exportedIn: Context                 // context in which an allocation was last looked up and exported

    /** How many references to `r` the object holds. */
    ghost function Owed(r: Resource): nat
      reads this
    {
      match r
      case MrOf(m) => if m in mrCache then 1 else 0
      case DmabufFd(_) => 0
      case PrimaryCtx(d) => (if Retained(cudaCtxs, d) then 1 else 0) + (if ownsCtx && d == cudaDeviceId then 1 else 0)
    }

    /** Everything acquired is still held by the object or was released once. */
    ghost predicate Valid()
      reads this
    {
      Disciplined(log) && forall r :: Held(log, r) == Owed(r)
    }

    /** The cache as its clients see it. */
    ghost function State(): Cache
      reads this
    {
      View(regions, mrCache)
    }

    constructor (deviceId: int, ctx: Context, owns: bool, startLog: Log<Resource>, startCtx: Context)
      requires Disciplined(startLog)
      requires forall r :: Held(startLog, r) == if owns && r == PrimaryCtx(deviceId) then 1 else 0
      ensures Valid() && State() == EMPTY
      ensures cudaDeviceId == deviceId && cudaCtx == ctx && ownsCtx == owns
      ensures log == startLog && current == startCtx
    {
      regions, mrCache, cudaCtxs := [], [], [];
      cudaDeviceId, cudaCtx, ownsCtx := deviceId, ctx, owns;
      current, log, lastReg, exportedIn := startCtx, startLog, None, NO_CONTEXT;
    }

    // ----- contexts -----

    /** The context to use for a device: the domain's own, a retained one, or a newly retained one. */
    method GetCudaCtx(device: int, g: Replies) returns (rc: Status, ctx: Context)
      requires Valid()
      modifies this`cudaCtxs, this`log
      ensures Valid()
      ensures rc == Success || rc == EInval || rc == ENoMem || rc == ENoDev
      ensures rc != Success ==> cudaCtxs == old(cudaCtxs) && log == old(log)
      ensures cudaCtx != NO_CONTEXT ==> rc == Success && ctx == cudaCtx && log == old(log)
      ensures rc == Success && cudaCtx == NO_CONTEXT ==> CtxEntry(device, ctx) in cudaCtxs
      ensures rc == Success <==>
              || cudaCtx != NO_CONTEXT
              || (device >= 0 && (Retained(old(cudaCtxs), device) || (g.ctxAlloc && g.deviceGet && g.retain.Some?)))
      ensures cudaCtx == NO_CONTEXT && device < 0 ==> rc == EInval
      ensures old(cudaCtxs) <= cudaCtxs && |cudaCtxs| <= |old(cudaCtxs)| + 1
      ensures PrefixOf(old(log), log)
    {
      ctx := NO_CONTEXT;
      if cudaCtx != NO_CONTEXT {
        return Success, cudaCtx;
      }
      if device < 0 {
        return EInval, NO_CONTEXT;
      }
      for i := 0 to |cudaCtxs|
        invariant forall k :: 0 <= k < i ==> cudaCtxs[k].device != device
      {
        if cudaCtxs[i].device == device {
          return Success, cudaCtxs[i].ctx;
        }
      }
      if !g.ctxAlloc {
        return ENoMem, NO_CONTEXT;
      }
      if !g.deviceGet || g.retain.None? {
        return ENoDev, NO_CONTEXT;
      }
      var entry := CtxEntry(device, g.retain.value);
      log := Acquired(log, PrimaryCtx(device));
      cudaCtxs := cudaCtxs + [entry];
      return Success, entry.ctx;
    }

    method SetCudaCtx(ctx: Context, g: Replies) returns (rc: Status, prev: Context, changed: bool)
      modifies this`current
      ensures rc == Success || rc == EFault
      ensures rc == Success <==> ctx == NO_CONTEXT || (g.getCurrent && (ctx == old(current) || g.setCurrent))
      ensures rc != Success ==> current == old(current) && !changed
      ensures rc == Success && ctx != NO_CONTEXT ==> current == ctx
      ensures changed ==> prev == old(current)
      ensures !changed ==> current == old(current)
    {
      prev, changed := NO_CONTEXT, false;
      if ctx == NO_CONTEXT {
        return Success, prev, changed;
      }
      if !g.getCurrent {
        return EFault, prev, changed;
      }
      prev := current;
      if prev == ctx {
        return Success, prev, changed;
      }
      if !g.setCurrent {
        return EFault, prev, changed;
      }
      current := ctx;
      return Success, prev, true;
    }

    method RestoreCudaCtx(prev: Context, changed: bool, g: Replies)
      modifies this`current
      ensures current == if changed && g.setPrevious then prev else old(current)
    {
      if changed && g.setPrevious {
        current := prev;
      }
    }

    // ----- regions and MRs -----

    /** Returns the declared region that holds the range, declaring the range itself if it is new. */
    method AddRegion(addr: Word, len: Word, device: int, g: Replies) returns (rc: Status, region: Option<Region>)
      requires Valid()
      modifies this`regions
      ensures Valid()
      ensures rc == Success <==> region.Some?
      ensures rc == Success ==> region.value in regions && region.value.device == device
      ensures rc != Success ==> regions == old(regions)
      ensures rc == ENoMem ==> !g.regionAlloc
      ensures Inv(old(State())) && 0 < len && addr + len < WORD_SPAN ==>
                DeclareStep(old(State()), addr, len, device, rc, region, State())
      // whatever passes the checks goes in, in any state
      ensures FindRegion(old(regions), addr, len).None? && FindOverlappingRegion(old(regions), addr, len).None? &&
              (forall q <- old(regions) :: q.addr != addr) && g.regionAlloc ==>
                && region == Some(Region(addr, len, device))
                && RegionSet(regions) == RegionSet(old(regions)) + {Region(addr, len, device)}
      // a range that wraps around is never refused for overlapping
      ensures Inv(old(State())) && 0 < len && addr + len >= WORD_SPAN ==>
                if !g.regionAlloc then rc == ENoMem
                else if exists q :: q in old(regions) && q.addr == addr then rc == EExist
                else region == Some(Region(addr, len, device)) &&
                     RegionSet(regions) == RegionSet(old(regions)) + {Region(addr, len, device)}
    {
      NewRegionKeyFree(regions, addr, len);
      var found := FindRegion(regions, addr, len);
      if found.Some? {
        if found.value.device != device {
          return EInval, None;
        }
        return Success, found;
      }
      if FindOverlappingRegion(regions, addr, len).Some? {
        return EInval, None;
      }
      if !g.regionAlloc {
        return ENoMem, None;
      }
      var r := Region(addr, len, device);
      var inserted := AddNew(r);
      return if inserted then Success else EExist, if inserted then Some(r) else None;
    }

    method AddNew(r: Region) returns (ok: bool)
      requires Valid()
      modifies this`regions
      ensures Valid() && (ok <==> forall q <- old(regions) :: q.addr != r.addr)
      ensures ok ==> r in regions && RegionSet(regions) == RegionSet(old(regions)) + {r}
      ensures !ok ==> regions == old(regions)
    {
      InsertRegionKeeps(regions, r);
      var inserted := InsertRegion(regions, r);
      ok := inserted.Some?;
      if ok {
        regions := inserted.value;
        assert r in RegionSet(regions);
      }
    }

    /** Exports the allocation behind the range, registers the range with verbs and caches the MR. */
    method RegisterMr(device: int, pd: Word, addr: Word, len: Word, g: Replies)
      returns (rc: Status, entry: Option<Mr>)
      requires Valid()
      modifies this`mrCache, this`cudaCtxs, this`log, this`current, this`lastReg, this`exportedIn
      ensures Valid()
      ensures rc == Success <==> entry.Some?
      ensures rc != Success ==> mrCache == old(mrCache)
      ensures FindOverlappingMr(old(mrCache), device, pd, addr, len).Some? ==>
                rc == EExist && log == old(log) && current == old(current)
      ensures rc == EExist ==>
                FindOverlappingMr(old(mrCache), device, pd, addr, len).Some? ||
                exists q :: q in old(mrCache) && Grouped(q, device, pd) && q.addr == addr
      // the MR covers the range, which lies inside the exported allocation at the stated offset
      ensures rc == Success ==>
                && g.reg.Registered? && entry == Some(Mr(addr, len, device, pd, g.reg.mr))
                && MrSet(mrCache) == MrSet(old(mrCache)) + {entry.value}
                && g.range.Some? && g.dmabuf.Some?
                && g.range.value.0 <= addr && addr + len <= g.range.value.0 + g.range.value.1
                && lastReg == Some(RegArgs(pd, addr - g.range.value.0, len, addr, g.dmabuf.value))
                && InContext(device, exportedIn)
      ensures HasCtx(cudaCtx, device) && Cooperates(g, addr, len) && rc != EExist ==> rc == Success
      ensures g.setPrevious ==> current == old(current)
      ensures PrefixOf(old(log), log)
    {
      if FindOverlappingMr(mrCache, device, pd, addr, len).Some? {
        return EExist, None;
      }
      if !g.entryAlloc {
        return ENoMem, None;
      }
      var offset;
      rc, offset := ExportRange(device, addr, len, g);
      if rc != Success {
        return rc, None;
      }
      ghost var exported := log;
      rc, entry := ImportMr(device, pd, addr, len, offset, g.dmabuf.value, g.reg);
      PrefixTrans(old(log), exported, log);
    }

    /** The domain's own context or, if it has none, the one retained for the device; a null one is not set. */
    ghost predicate InContext(device: int, ctx: Context)
      reads this
    {
      if cudaCtx != NO_CONTEXT then ctx == cudaCtx
      else exists e :: e in cudaCtxs && e.device == device && (e.ctx != NO_CONTEXT ==> ctx == e.ctx)
    }

    /** Makes the context of the device current. */
    method EnterContext(device: int, g: Replies) returns (rc: Status, prev: Context, changed: bool)
      requires Valid()
      modifies this`cudaCtxs, this`log, this`current
      ensures Valid() && rc != EExist && PrefixOf(old(log), log)
      ensures rc == Success ==> InContext(device, current)
      ensures rc != Success ==> current == old(current)
      ensures if changed then prev == old(current) else current == old(current)
      ensures HasCtx(cudaCtx, device) && g.ctxAlloc && g.deviceGet && g.retain.Some? && g.getCurrent && g.setCurrent ==>
                rc == Success
      ensures cudaCtx == NO_CONTEXT && device < 0 ==> rc == EInval
      ensures cudaCtx == NO_CONTEXT && rc == Success ==>
                Retained(old(cudaCtxs), device) || (g.ctxAlloc && g.deviceGet && g.retain.Some?)
      ensures cudaCtx != NO_CONTEXT && cudaCtx != old(current) && !(g.getCurrent && g.setCurrent) ==> rc == EFault
    {
      prev, changed := NO_CONTEXT, false;
      var ctx;
      rc, ctx := GetCudaCtx(device, g);
      if rc == Success {
        rc, prev, changed := SetCudaCtx(ctx, g);
      }
    }

    /** The driver half: finds the allocation behind the range and exports it, in the device's context. */
    method ExportRange(device: int, addr: Word, len: Word, g: Replies) returns (rc: Status, offset: Word)
      requires Valid()
      modifies this`cudaCtxs, this`log, this`current, this`exportedIn
      ensures Valid() && rc != EExist
      ensures rc == Success ==>
                && g.range.Some? && g.dmabuf.Some?
                && g.range.value.0 <= addr && addr + len <= g.range.value.0 + g.range.value.1
                && offset == addr - g.range.value.0
      ensures HasCtx(cudaCtx, device) && Cooperates(g, addr, len) ==> rc == Success
      ensures g.setPrevious ==> current == old(current)
      // the allocation is looked up and exported in the context of the device
      ensures rc == Success ==> InContext(device, exportedIn)
      // no context, no export
      ensures cudaCtx == NO_CONTEXT && device < 0 ==> rc == EInval
      ensures cudaCtx == NO_CONTEXT && !Retained(old(cudaCtxs), device) &&
              !(g.ctxAlloc && g.deviceGet && g.retain.Some?) ==>
                rc != Success
      ensures cudaCtx != NO_CONTEXT && cudaCtx != old(current) && !(g.getCurrent && g.setCurrent) ==> rc == EFault
      ensures PrefixOf(old(log), log)
    {
      offset := 0;
      var prev, changed;
      rc, prev, changed := EnterContext(device, g);
      if rc != Success {
        return rc, 0;
      }
      exportedIn := current;
      rc, offset := LocateRange(addr, len, g, prev, changed);
    }

    /** The lookup of the allocation, the checks and the export; the previous context is current again. */
    method LocateRange(addr: Word, len: Word, g: Replies, prev: Context, changed: bool)
      returns (rc: Status, offset: Word)
      modifies this`current
      ensures rc == Success || rc == EInval || rc == EFault
      ensures rc == Success <==>
              && g.range.Some? && g.range.value.0 <= addr && addr + len <= g.range.value.0 + g.range.value.1
              && g.dmabuf.Some?
      ensures rc == Success ==> offset == addr - g.range.value.0
      ensures current == if changed && g.setPrevious then prev else old(current)
    {
      offset := 0;
      if g.range.None? {
        RestoreCudaCtx(prev, changed, g);
        return EFault, 0;
      }
      var base, size := g.range.value.0, g.range.value.1;
      if addr < base {
        RestoreCudaCtx(prev, changed, g);
        return EInval, 0;
      }
      offset := SubW(addr, base);
      if offset > size || len > SubW(size, offset) {
        RestoreCudaCtx(prev, changed, g);
        return EInval, 0;
      }
      RestoreCudaCtx(prev, changed, g);
      rc := if g.dmabuf.None? then EFault else Success;
    }

    /** The verbs half of the registration: the descriptor is closed whatever verbs answers. */
    method ImportMr(device: int, pd: Word, addr: Word, len: Word, offset: Word, fd: nat, reg: RegReply)
      returns (rc: Status, entry: Option<Mr>)
      requires Valid()
      modifies this`mrCache, this`log, this`lastReg
      ensures Valid()
      ensures lastReg == Some(RegArgs(pd, offset, len, addr, fd))
      ensures rc == Success <==> entry.Some?
      ensures rc != Success ==> mrCache == old(mrCache)
      ensures reg.RegFailed? ==> rc == if reg.errno == 0 then EFault else Errno(reg.errno)
      ensures reg.Registered? ==>
                if exists q :: q in old(mrCache) && Grouped(q, device, pd) && q.addr == addr
                then rc == EExist
                else entry == Some(Mr(addr, len, device, pd, reg.mr)) &&
                     MrSet(mrCache) == MrSet(old(mrCache)) + {entry.value}
      ensures reg.Registered? ==>
                log == ImportCalls(old(log), fd, Mr(addr, len, device, pd, reg.mr), reg, rc == Success)
      ensures PrefixOf(old(log), log)
    {
      log := Acquired(log, DmabufFd(fd));
      lastReg := Some(RegArgs(pd, offset, len, addr, fd));
      if reg.RegFailed? {
        log := Released(log, DmabufFd(fd));
        ImportBalanced(old(log), fd, Mr(addr, len, device, pd, IbvMr(0, 0, 0)), reg, false);
        ImportExtends(old(log), fd, Mr(addr, len, device, pd, IbvMr(0, 0, 0)), reg, false);
        return if reg.errno == 0 then EFault else Errno(reg.errno), None;
      }
      var m := Mr(addr, len, device, pd, reg.mr);
      log := Released(Acquired(log, MrOf(m)), DmabufFd(fd));
      InsertMrKeeps(mrCache, m);
      var inserted := InsertMr(mrCache, m);
      ImportBalanced(old(log), fd, m, reg, inserted.Some?);
      ImportExtends(old(log), fd, m, reg, inserted.Some?);
      if inserted.None? {
        log := Released(log, MrOf(m));
        return EExist, None;
      }
      mrCache := inserted.value;
      return Success, Some(m);
    }

    /** Finds the MR that answers for a range of a declared region, registering the region on a miss. */
    method ServeRegion(r: Region, pd: Word, addr: Word, len: Word, g: Replies)
      returns (rc: Status, keys: Option<IbvMr>)
      requires Valid()
      modifies this`mrCache, this`cudaCtxs, this`log, this`current, this`lastReg, this`exportedIn
      ensures Valid()
      ensures Inv(old(State())) && r in regions && Holds(r, addr, len) ==>
                Serve(old(State()), r, pd, rc, keys, State()) ||
                ServedByNeighbour(old(State()), r, pd, addr, len, rc, keys, State())
      ensures Inv(old(State())) && r in regions && Holds(r, addr, len) && Granted(cudaCtx, r, g) ==> rc == Success
      ensures MrSet(old(mrCache)) <= MrSet(mrCache)
      ensures g.setPrevious ==> current == old(current)
      ensures PrefixOf(old(log), log) && (keys.Some? ==> InCache(mrCache, pd, keys.value))
    {
      ghost var healthy := Inv(State()) && r in regions && Holds(r, addr, len);
      var found := FindMr(mrCache, r.device, pd, addr, len);
      if found.Some? {
        if healthy {
          HitIsOwn(regions, mrCache, r, pd, addr, len);
          assert found.value in MrSet(mrCache);
          assert Cached(State(), RegionOf(found.value), pd, found.value.mr);
        }
        return Success, Some(found.value.mr);
      }
      if healthy {
        MissMeansNoCollision(regions, mrCache, r, pd, addr, len);
        assert forall mr :: !Cached(State(), r, pd, mr);
      }
      var entry;
      rc, entry := RegisterMr(r.device, pd, r.addr, r.len, g);
      keys := if entry.Some? then Some(entry.value.mr) else None;
      assert entry.Some? ==> entry.value in MrSet(mrCache);
    }

    /**
     Registers a range on the device of the domain or, if the domain has none, on that of the pointer:
     declares it, unless a region holds it already, and serves the region.
     */
    method Register(pd: PdReply, addr: Word, len: Word, g: Replies) returns (rc: Status)
      requires Valid()
      modifies this
      ensures Valid()
      ensures Inv(old(State())) && addr + len < WORD_SPAN ==>
                RegisterStep(old(State()), pd, addr, len, DeviceOf(cudaDeviceId, g), rc, State())
      ensures Inv(old(State())) && RegisterReady(cudaDeviceId, cudaCtx, old(State()), pd, addr, len, g) ==>
                rc == Success
      // a new range, and foreign code that cooperates
      ensures Inv(old(State())) && pd.Pd? && addr != 0 && len != 0 && addr + len < WORD_SPAN &&
              (forall r <- old(State()).regions :: r.addr + r.len <= addr || addr + len <= r.addr) &&
              g.regionAlloc && g.entryAlloc && g.ctxAlloc && g.deviceGet && g.retain.Some? && g.getCurrent &&
              g.setCurrent && g.range.Some? && g.range.value.0 <= addr &&
              addr + len <= g.range.value.0 + g.range.value.1 && g.dmabuf.Some? && g.reg.Registered? ==>
                && (cudaDeviceId >= 0 ==> rc == Success && Region(addr, len, cudaDeviceId) in State().regions)
                && (cudaDeviceId < 0 && g.ptrDevice.Some? && (g.ptrDevice.value >= 0 || cudaCtx != NO_CONTEXT) ==>
                      rc == Success && Region(addr, len, g.ptrDevice.value) in State().regions)
      ensures cudaDeviceId < 0 && g.ptrDevice.None? && addr != 0 && len != 0 && pd.Pd? ==>
                rc == EFault && State() == old(State())
      // a range that wraps around becomes a region unless memory is short or its key is taken
      ensures Inv(old(State())) && addr != 0 && len != 0 && addr + len >= WORD_SPAN && pd.Pd? &&
              DeviceOf(cudaDeviceId, g).Some? ==>
                && (if g.regionAlloc && KeyUnused(old(State()), addr)
                    then State().regions == old(State()).regions + {Region(addr, len, DeviceOf(cudaDeviceId, g).value)}
                    else State().regions == old(State()).regions)
                && old(State()).mrs <= State().mrs
      ensures g.setPrevious ==> current == old(current)
      ensures PrefixOf(old(log), log)
    {
      if addr == 0 || len == 0 {
        return EInval;
      }
      if pd.NoPd? {
        return pd.rc;
      }
      var device := DeviceOf(cudaDeviceId, g);
      if device.None? {
        return EFault;
      }
      ghost var before := State();
      rc := RegisterOn(device.value, pd, addr, len, g);
      if Inv(before) && addr + len < WORD_SPAN {
        NewRangeDeclared(before, pd, addr, len, device.value, rc, State());
      }
    }

    /** The registration once its device is known. */
    method RegisterOn(device: int, pd: PdReply, addr: Word, len: Word, g: Replies) returns (rc: Status)
      requires Valid() && addr != 0 && len != 0 && pd.Pd?
      modifies this
      ensures Valid()
      ensures Inv(old(State())) && addr + len < WORD_SPAN ==>
                RegisterStep(old(State()), pd, addr, len, Some(device), rc, State())
      ensures Inv(old(State())) && addr + len < WORD_SPAN && g.regionAlloc &&
              GrantedOn(cudaCtx, old(State()), device, addr, len, g) ==>
                rc == Success
      ensures Inv(old(State())) && addr + len >= WORD_SPAN ==>
                && (if g.regionAlloc && KeyUnused(old(State()), addr)
                    then State().regions == old(State()).regions + {Region(addr, len, device)}
                    else State().regions == old(State()).regions)
                && old(State()).mrs <= State().mrs
      ensures g.setPrevious ==> current == old(current)
      ensures PrefixOf(old(log), log)
    {
      var region, keys;
      rc, region := AddRegion(addr, len, device, g);
      if rc != Success {
        return rc;
      }
      ghost var declared := State();
      if Inv(old(State())) && addr + len < WORD_SPAN {
        if declared != old(State()) { DeclareKeepsInv(old(State()), region.value); }
        assert Inv(declared) && Ordinary(region.value);
      }
      rc, keys := ServeRegion(region.value, pd.pd, region.value.addr, region.value.len, g);
      assert Inv(old(State())) && addr + len < WORD_SPAN ==>
               DeclareStep(old(State()), addr, len, device, rc, region, declared) &&
               Serve(declared, region.value, pd.pd, rc, keys, State());
    }

    method Translate(pd: PdReply, addr: Word, len: Word, g: Replies)
      returns (rc: Status, keys: Option<IbvMr>)
      requires Valid()
      modifies this`mrCache, this`cudaCtxs, this`log, this`current, this`lastReg, this`exportedIn
      ensures Valid()
      ensures Inv(old(State())) ==> TranslateStep(old(State()), pd, addr, len, rc, keys, State())
      ensures Inv(old(State())) && TranslateReady(cudaCtx, old(State()), pd, addr, len, g) ==> rc == Success
      // a range inside a region, and foreign code that cooperates with the region
      ensures Inv(old(State())) && pd.Pd? && len > 0 && g.entryAlloc && g.ctxAlloc && g.deviceGet && g.retain.Some? &&
              g.getCurrent && g.setCurrent && g.range.Some? && g.dmabuf.Some? && g.reg.Registered? ==>
                forall r <- old(State()).regions |
                  && r.addr <= addr && addr + len <= r.addr + r.len && (r.device >= 0 || cudaCtx != NO_CONTEXT)
                  && g.range.value.0 <= r.addr && r.addr + r.len <= g.range.value.0 + g.range.value.1 :: rc == Success
      ensures g.setPrevious ==> current == old(current)
      ensures PrefixOf(old(log), log) && (keys.Some? ==> pd.Pd? && InCache(mrCache, pd.pd, keys.value))
    {
      if pd.NoPd? {
        return pd.rc, None;
      }
      FindersAgree(regions, addr, len);
      var region := FindRegion(regions, addr, len);
      if region.None? {
        if Inv(State()) {
          forall r <- State().regions ensures !(r.addr <= addr && addr + len <= r.addr + r.len) {
            HoldsExact(r, addr, len);
          }
        }
        return EInval, None;
      }
      ghost var before := State();
      rc, keys := ServeRegion(region.value, pd.pd, addr, len, g);
      forall r <- before.regions | Inv(before) && len > 0 && r.addr <= addr && addr + len <= r.addr + r.len
        ensures r == region.value
      {
        HoldsExact(r, addr, len);
        HolderUnique(before, r, region.value, addr, len);
      }
    }

    /** Drops every MR and every region that overlaps the range. */
    method InvalidateRange(addr: Word, len: Word)
      requires Valid()
      modifies this`mrCache, this`regions, this`log
      ensures Valid()
      ensures InvalidateStep(old(State()), addr, len, State()) && PrefixOf(old(log), log)
    {
      if addr == 0 || len == 0 {
        return;
      }
      DropMrs(addr, len);
      DropRegions(addr, len);
    }

    method DropMrs(addr: Word, len: Word)
      requires Valid()
      modifies this`mrCache, this`log
      ensures Valid()
      ensures MrSet(mrCache) == set m | m in MrSet(old(mrCache)) && !RangeOverlaps(m.addr, m.len, addr, len)
      ensures PrefixOf(old(log), log)
    {
      var i := 0;
      while i < |mrCache|
        invariant 0 <= i <= |mrCache| && Valid() && PrefixOf(old(log), log)
        invariant forall k :: 0 <= k < i ==> !RangeOverlaps(mrCache[k].addr, mrCache[k].len, addr, len)
        invariant forall m <- mrCache :: m in old(mrCache)
        invariant forall m <- old(mrCache) :: m in mrCache || RangeOverlaps(m.addr, m.len, addr, len)
        decreases |mrCache| - i
      {
        if RangeOverlaps(mrCache[i].addr, mrCache[i].len, addr, len) {
          ghost var before := log;
          DropMr(i);
          PrefixTrans(old(log), before, log);
        } else {
          i := i + 1;
        }
      }
    }

    method DropRegions(addr: Word, len: Word)
      requires Valid()
      modifies this`regions
      ensures Valid()
      ensures RegionSet(regions) == set r | r in RegionSet(old(regions)) && !Meets(r, addr, len)
    {
      var i := 0;
      while i < |regions|
        invariant 0 <= i <= |regions| && Valid()
        invariant forall k :: 0 <= k < i ==> !Meets(regions[k], addr, len)
        invariant forall r <- regions :: r in old(regions)
        invariant forall r <- old(regions) :: r in regions || Meets(r, addr, len)
        decreases |regions| - i
      {
        if Meets(regions[i], addr, len) {
          regions := RemoveAt(regions, i);
        } else {
          i := i + 1;
        }
      }
    }

    /** Removes the entry at position i from the tree and deregisters its MR. */
    method DropMr(i: nat)
      requires Valid() && i < |mrCache|
      modifies this`mrCache, this`log
      ensures Valid() && mrCache == RemoveAt(old(mrCache), i)
      ensures log == Released(old(log), MrOf(old(mrCache)[i]))
    {
      var m := mrCache[i];
      assert Held(log, MrOf(m)) == 1;
      forall k | 0 <= k < |mrCache| && k != i ensures mrCache[k] != m {
        assert if k < i then KeyBelow(mrCache[k], m.device, m.pd, m.addr)
               else KeyBelow(m, mrCache[k].device, mrCache[k].pd, mrCache[k].addr);
      }
      mrCache := RemoveAt(mrCache, i);
      log := Released(log, MrOf(m));
      assert m !in mrCache;
    }

    /** Tears the domain down; afterwards nothing acquired in its lifetime is still held. */
    method Destroy()
      requires Valid()
      modifies this
      ensures Disciplined(log) && forall r :: Held(log, r) == 0
      ensures State() == EMPTY && cudaCtxs == [] && current == old(current) && PrefixOf(old(log), log)
    {
      DropEverything();
      ghost var dropped := log;
      ReleaseContexts();
      PrefixTrans(old(log), dropped, log);
    }

    method DropEverything()
      requires Valid()
      modifies this`mrCache, this`regions, this`log
      ensures Valid() && mrCache == [] && regions == [] && PrefixOf(old(log), log)
    {
      while |mrCache| > 0
        invariant Valid() && PrefixOf(old(log), log)
      {
        ghost var before := log;
        DropMr(0);
        PrefixTrans(old(log), before, log);
      }
      while |regions| > 0
        invariant Valid() && mrCache == [] && PrefixOf(old(log), log)
      {
        regions := RemoveAt(regions, 0);
      }
    }

    method ReleaseContexts()
      requires Valid() && mrCache == []
      modifies this`cudaCtxs, this`log
      ensures cudaCtxs == [] && Disciplined(log) && (forall r :: Held(log, r) == 0) && PrefixOf(old(log), log)
    {
      if ownsCtx {
        assert Held(log, PrimaryCtx(cudaDeviceId)) > 0;
        log := Released(log, PrimaryCtx(cudaDeviceId));
      }
      while |cudaCtxs| > 0
        invariant Disciplined(log) && PrefixOf(old(log), log)
        invariant forall r :: Held(log, r) == if r.PrimaryCtx? && Retained(cudaCtxs, r.device) then 1 else 0
        decreases |cudaCtxs|
      {
        var e := cudaCtxs[0];
        assert e in cudaCtxs && Held(log, PrimaryCtx(e.device)) == 1;
        log := Released(log, PrimaryCtx(e.device));
        ghost var was := cudaCtxs;
        cudaCtxs := cudaCtxs[1..];
        FirstGone(was, cudaCtxs, e);
      }
    }
  }

  lemma FirstGone(was: CtxList, ctxs: CtxList, e: CtxEntry)
    requires was == [e] + ctxs
    ensures !Retained(ctxs, e.device) && forall d :: Retained(was, d) <==> d == e.device || Retained(ctxs, d)
  {
    forall f <- ctxs ensures f.device != e.device && f in was {
      var k :| 0 <= k < |ctxs| && ctxs[k] == f;
      assert was[k + 1] == f && was[0] == e;
    }
    assert e in was;
  }

  /** What the creation of a domain may be answered. */
  datatype CreateReplies = CreateReplies(alloc: bool, init: bool, deviceGet: bool, retain: Option<Context>,
                                         domain: Status)

  /** A context is only retained for a real device whose context the caller did not give. */
  predicate Creatable(deviceId: int, ctx: Context, c: CreateReplies) {
    && deviceId >= -1 && c.alloc && c.init && c.domain == Success
    && (ctx == NO_CONTEXT && deviceId >= 0 ==> c.deviceGet && c.retain.Some?)
  }

  /** The context of a new domain: the caller's, or one retained for the device. */
  function OwnCtx(deviceId: int, ctx: Context, c: CreateReplies): Context {
    if ctx == NO_CONTEXT && deviceId >= 0 && c.retain.Some? then c.retain.value else ctx
  }

  method Create(deviceId: int, ctx: Context, c: CreateReplies, caller: Context)
    returns (rc: Status, d: GpuDomain?, log: Log<Resource>)
    ensures rc == Success <==> d != null
    ensures rc == Success <==> Creatable(deviceId, ctx, c)
    ensures rc == if deviceId < -1 then EInval else if !c.alloc then ENoMem else if !c.init then ENoDev
                  else if ctx == NO_CONTEXT && deviceId >= 0 && (!c.deviceGet || c.retain.None?) then ENoDev
                  else c.domain
    ensures d != null ==> d.cudaDeviceId == deviceId && d.cudaCtx == OwnCtx(deviceId, ctx, c)
    ensures d != null ==>
              d.cudaCtx == if ctx == NO_CONTEXT && deviceId >= 0 && c.retain.Some? then c.retain.value else ctx
    ensures d != null ==> (d.ownsCtx <==> ctx == NO_CONTEXT && deviceId >= 0)
    ensures rc != Success ==> Disciplined(log) && forall r :: Held(log, r) == 0
    ensures d != null ==> fresh(d) && d.Valid() && d.State() == EMPTY && d.current == caller && d.log == log
  {
    log := Fresh;
    if deviceId < -1 {
      return EInval, null, log;
    }
    if !c.alloc {
      return ENoMem, null, log;
    }
    if !c.init {
      return ENoDev, null, log;
    }
    var domainCtx, owns := ctx, false;
    if ctx == NO_CONTEXT && deviceId >= 0 {
      if !c.deviceGet || c.retain.None? {
        return ENoDev, null, log;
      }
      log := Acquired(log, PrimaryCtx(deviceId));
      assert forall r :: Held(log, r) == if r == PrimaryCtx(deviceId) then 1 else 0;
      domainCtx, owns := c.retain.value, true;
    }
    if c.domain != Success {
      if owns {
        log := Released(log, PrimaryCtx(deviceId));
      }
      return c.domain, null, log;
    }
    d := new GpuDomain(deviceId, domainCtx, owns, log, caller);
    return Success, d, log;
  }

  /** One call of a client together with everything foreign code answers during it. */
  datatype Request =
    | AskRegister(pd: PdReply, addr: Word, len: Word, g: Replies)
    | AskTranslate(pd: PdReply, addr: Word, len: Word, g: Replies)
    | AskInvalidate(addr: Word, len: Word)

  /** The call is the request, made on the device of the domain or of the pointer. */
  ghost predicate Answers(deviceId: int, req: Request, call: Call) {
    match req
    case AskRegister(pd, addr, len, g) =>
      call.Register? && call == Call.Register(pd, addr, len, DeviceOf(deviceId, g), call.rc)
    case AskTranslate(pd, addr, len, _) =>
      call.Translate? && call == Call.Translate(pd, addr, len, call.rc, call.keys)
    case AskInvalidate(addr, len) => call == Invalidate(addr, len)
  }

  /** Nothing but foreign code could refuse the request, and it grants it. */
  ghost predicate Ready(deviceId: int, own: Context, c: Cache, req: Request) {
    match req
    case AskRegister(pd, addr, len, g) => RegisterReady(deviceId, own, c, pd, addr, len, g)
    case AskTranslate(pd, addr, len, g) => TranslateReady(own, c, pd, addr, len, g)
    case AskInvalidate(_, _) => false
  }

  ghost predicate Succeeds(call: Call) {
    !call.Invalidate? && call.rc == Success
  }

  /** Keys that a call handed out are those of an MR that was registered with verbs. */
  ghost predicate KeysAcquired(log: Log<Resource>, call: Call) {
    call.Translate? && call.keys.Some? ==> call.pd.Pd? && WasAcquired(log, call.pd.pd, call.keys.value)
  }

  /** None of the client's first n requests is a registration that wraps around. */
  ghost predicate OrdinaryUpTo(requests: seq<Request>, n: nat)
    requires n <= |requests|
  {
    forall i :: 0 <= i < n && requests[i].AskRegister? ==> requests[i].addr + requests[i].len < WORD_SPAN
  }

  /**
   A whole life of a domain under an arbitrary client: create, any calls in any order, destroy.
   Whatever foreign code answers, every request is answered, every key handed out is that of an MR
   registered with verbs, and everything acquired is released exactly once. As long as no registration
   wraps around, the calls form a run of the specification and fail only when they must.
   */
  method Lifetime(deviceId: int, ctx: Context, c: CreateReplies, caller: Context, requests: seq<Request>)
    returns (log: Log<Resource>, calls: seq<Call>, ghost trace: seq<Cache>, current: Context)
    ensures Disciplined(log) && forall r :: Held(log, r) == 0
    ensures (forall q <- requests :: q.AskInvalidate? || q.g.setPrevious) ==> current == caller
    ensures |calls| == if Creatable(deviceId, ctx, c) then |requests| else 0
    ensures forall i :: 0 <= i < |calls| ==> Answers(deviceId, requests[i], calls[i]) && KeysAcquired(log, calls[i])
    ensures forall i | 0 <= i < |calls| && requests[i].AskRegister? ::
              calls[i].Register? && calls[i].device == if deviceId == -1 then requests[i].g.ptrDevice
                  else Some(deviceId)
    ensures |trace| == |calls| + 1
    ensures forall n :: 0 <= n <= |calls| && OrdinaryUpTo(requests, n) ==> IsRun(trace[..n + 1], calls[..n])
    ensures forall i | 0 <= i < |calls| && OrdinaryUpTo(requests, i) ::
              Ready(deviceId, OwnCtx(deviceId, ctx, c), trace[i], requests[i]) ==> Succeeds(calls[i])
  {
    var rc, d;
    rc, d, log := Create(deviceId, ctx, c, caller);
    calls, trace := [], [EMPTY];
    if d == null {
      return log, calls, trace, caller;
    }
    for i := 0 to |requests|
      invariant fresh(d) && d.Valid() && trace != [] && trace[|trace| - 1] == d.State()
      invariant d.cudaDeviceId == deviceId && d.cudaCtx == OwnCtx(deviceId, ctx, c)
      invariant InLife(d.log, deviceId, OwnCtx(deviceId, ctx, c), requests, i, calls, trace)
      invariant (forall q <- requests :: q.AskInvalidate? || q.g.setPrevious) ==> d.current == caller
    {
      ghost var before := d.log;
      if OrdinaryUpTo(requests, i) { ReachableInv(trace[..i + 1], calls[..i], i); }
      var call := Serve1(d, requests[i]);
      LifeGrows(before, d.log, deviceId, OwnCtx(deviceId, ctx, c), requests, i, calls, trace, call, d.State());
      calls, trace := calls + [call], trace + [d.State()];
    }
    ghost var before := d.log;
    d.Destroy();
    log, current := d.log, d.current;
    forall i | 0 <= i < |calls| ensures KeysAcquired(log, calls[i]) {
      KeysStayAcquired(before, log, calls[i]);
    }
  }

  /** How far the client has come. */
  ghost predicate InLife(log: Log<Resource>, deviceId: int, own: Context, requests: seq<Request>, n: nat,
                         calls: seq<Call>, trace: seq<Cache>)
  {
    && |calls| == n <= |requests| && |trace| == n + 1
    && (forall i :: 0 <= i < n ==> Answers(deviceId, requests[i], calls[i]) && KeysAcquired(log, calls[i]))
    && (forall m :: 0 <= m <= n && OrdinaryUpTo(requests, m) ==> IsRun(trace[..m + 1], calls[..m]))
    && (forall i :: 0 <= i < n && OrdinaryUpTo(requests, i) && Ready(deviceId, own, trace[i], requests[i]) ==>
          Succeeds(calls[i]))
  }

  lemma KeysStayAcquired(p: Log<Resource>, log: Log<Resource>, call: Call)
    requires PrefixOf(p, log) && KeysAcquired(p, call)
    ensures KeysAcquired(log, call)
  {
    if call.Translate? && call.keys.Some? { StaysAcquired(p, log, call.pd.pd, call.keys.value); }
  }

  lemma LifeGrows(p: Log<Resource>, log: Log<Resource>, deviceId: int, own: Context, requests: seq<Request>, n: nat,
                  calls: seq<Call>, trace: seq<Cache>, call: Call, s: Cache)
    requires n < |requests| && InLife(p, deviceId, own, requests, n, calls, trace) && PrefixOf(p, log)
    requires Answers(deviceId, requests[n], call) && KeysAcquired(log, call)
    requires OrdinaryUpTo(requests, n) && !Wraps(call) ==> Next(trace[n], call, s)
    requires OrdinaryUpTo(requests, n) && Ready(deviceId, own, trace[n], requests[n]) ==> Succeeds(call)
    ensures InLife(log, deviceId, own, requests, n + 1, calls + [call], trace + [s])
  {
    var all, states := calls + [call], trace + [s];
    forall i | 0 <= i < n + 1 ensures Answers(deviceId, requests[i], all[i]) && KeysAcquired(log, all[i]) {
      if i < n { KeysStayAcquired(p, log, calls[i]); }
    }
    forall m | 0 <= m <= n + 1 && OrdinaryUpTo(requests, m) ensures IsRun(states[..m + 1], all[..m]) {
      LifeRuns(p, deviceId, own, requests, n, calls, trace, call, s, m);
    }
    forall i | 0 <= i < n + 1 && OrdinaryUpTo(requests, i) && Ready(deviceId, own, states[i], requests[i])
      ensures Succeeds(all[i])
    {
      assert states[i] == trace[i];
    }
  }

  lemma LifeRuns(p: Log<Resource>, deviceId: int, own: Context, requests: seq<Request>, n: nat, calls: seq<Call>,
                 trace: seq<Cache>, call: Call, s: Cache, m: nat)
    requires n < |requests| && InLife(p, deviceId, own, requests, n, calls, trace)
    requires Answers(deviceId, requests[n], call) && m <= n + 1 && OrdinaryUpTo(requests, m)
    requires OrdinaryUpTo(requests, n) && !Wraps(call) ==> Next(trace[n], call, s)
    ensures IsRun((trace + [s])[..m + 1], (calls + [call])[..m])
  {
    if m <= n {
      assert (trace + [s])[..m + 1] == trace[..m + 1] && (calls + [call])[..m] == calls[..m];
    } else {
      assert OrdinaryUpTo(requests, n) && trace[..n + 1] == trace && calls[..n] == calls;
      assert (trace + [s])[..m + 1] == trace + [s] && (calls + [call])[..m] == calls + [call];
    }
  }

  method Serve1(d: GpuDomain, req: Request) returns (call: Call)
    requires d.Valid()
    modifies d
    ensures d.Valid() && Answers(d.cudaDeviceId, req, call) && PrefixOf(old(d.log), d.log)
    ensures req.AskInvalidate? || req.g.setPrevious ==> d.current == old(d.current)
    ensures Inv(old(d.State())) && !Wraps(call) ==> Next(old(d.State()), call, d.State())
    ensures Inv(old(d.State())) && Ready(d.cudaDeviceId, d.cudaCtx, old(d.State()), req) ==> Succeeds(call)
    ensures KeysAcquired(d.log, call)
  {
    match req
    case AskRegister(pd, addr, len, g) =>
      var device := DeviceOf(d.cudaDeviceId, g);
      var rc := d.Register(pd, addr, len, g);
      call := Call.Register(pd, addr, len, device, rc);
    case AskTranslate(pd, addr, len, g) =>
      var rc, keys := d.Translate(pd, addr, len, g);
      call := Call.Translate(pd, addr, len, rc, keys);
      if keys.Some? { CachedWasAcquired(d, pd.pd, keys.value); }
    case AskInvalidate(addr, len) =>
      d.InvalidateRange(addr, len);
      call := Invalidate(addr, len);
  }

  /** A cached MR is held, so it was acquired. */
  lemma CachedWasAcquired(d: GpuDomain, pd: Word, keys: IbvMr)
    requires d.Valid() && InCache(d.mrCache, pd, keys)
    ensures WasAcquired(d.log, pd, keys)
  {
    var m :| m in d.mrCache && m.pd == pd && m.mr == keys;
    assert d.Owed(MrOf(m)) == 1;
    Conservation(d.log, d.log, MrOf(m));
  }
}
