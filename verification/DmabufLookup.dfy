/**
 The two ordered trees of the cache and the lookups that read them. A tree is a strictly sorted
 sequence; a lookup looks at the least entry that is not below the query and at its predecessor,
 and nowhere else.
 */
module DmabufLookup {
  import opened Machine
  import opened DmabufSpec

  // ----- ordered trees: RB_NFIND, RB_PREV, RB_MAX, RB_INSERT -----

  /** Position of the least entry that is not below the query; the size of the tree if all are. */
  function NFind<T>(tree: seq<T>, below: T -> bool): (i: nat)
    ensures i <= |tree|
    ensures forall k :: 0 <= k < i ==> below(tree[k])
    ensures i < |tree| ==> !below(tree[i])
  {
    if tree == [] || !below(tree[0]) then 0 else
    assert forall k :: 0 < k <= |tree[1..]| ==> tree[k] == tree[1..][k - 1];
    1 + NFind(tree[1..], below)
  }

  /** RB_PREV of the entry found, or RB_MAX when none was: the entry just before position i. */
  function Before<T>(tree: seq<T>, i: nat): Option<T>
    requires i <= |tree|
  {
    if i == 0 then None else Some(tree[i - 1])
  }

  function InsertAt<T>(tree: seq<T>, i: nat, x: T): (out: seq<T>)
    requires i <= |tree|
    ensures |out| == |tree| + 1 && out[i] == x
    ensures forall k :: 0 <= k < i ==> out[k] == tree[k]
    ensures forall k :: i < k < |out| ==> out[k] == tree[k - 1]
    ensures x in out && (forall y <- tree :: y in out) && (forall y <- out :: y in tree || y == x)
  {
    assert tree == tree[..i] + tree[i..];
    tree[..i] + [x] + tree[i..]
  }

  /** The shape all four lookups share. */
  function Neighbour<T>(tree: seq<T>, below: T -> bool, hit: T -> bool): (found: Option<T>)
    ensures found.Some? ==> found.value in tree && hit(found.value)
  {
    var i := NFind(tree, below);
    if i < |tree| && hit(tree[i]) then Some(tree[i]) else
    var prev := Before(tree, i);
    if prev.Some? && hit(prev.value) then prev else None
  }

  // ----- regions, ordered by address -----

  ghost predicate RegionsSorted(tree: seq<Region>) {
    forall i, j :: 0 <= i < j < |tree| ==> tree[i].addr < tree[j].addr
  }

  type RegionTree = tree: seq<Region> | RegionsSorted(tree) witness []

  function FindRegion(tree: seq<Region>, addr: Word, len: Word): Option<Region> {
    Neighbour(tree, (r: Region) => r.addr < addr, (r: Region) => Holds(r, addr, len))
  }

  function FindOverlappingRegion(tree: seq<Region>, addr: Word, len: Word): Option<Region> {
    Neighbour(tree, (r: Region) => r.addr < addr, (r: Region) => Meets(r, addr, len))
  }

  /** RB_INSERT: None when an entry with this key is already there. */
  function InsertRegion(tree: seq<Region>, r: Region): Option<seq<Region>> {
    var i := NFind(tree, (q: Region) => q.addr < r.addr);
    if i < |tree| && tree[i].addr == r.addr then None
    else Some(InsertAt(tree, i, r))
  }

  ghost function RegionSet(tree: seq<Region>): set<Region> {
    set r | r in tree
  }

  // ----- MRs, ordered by device, then protection domain, then address -----

  predicate KeyBelow(m: Mr, device: int, pd: Word, addr: Word) {
    if m.device != device then m.device < device
    else if m.pd != pd then m.pd < pd
    else m.addr < addr
  }

  ghost predicate MrsSorted(tree: seq<Mr>) {
    forall i, j :: 0 <= i < j < |tree| ==> KeyBelow(tree[i], tree[j].device, tree[j].pd, tree[j].addr)
  }

  type MrTree = tree: seq<Mr> | MrsSorted(tree) witness []

  predicate Grouped(m: Mr, device: int, pd: Word) {
    m.device == device && m.pd == pd
  }

  function FindMr(tree: seq<Mr>, device: int, pd: Word, addr: Word, len: Word): Option<Mr> {
    Neighbour(tree, (m: Mr) => KeyBelow(m, device, pd, addr),
              (m: Mr) => Grouped(m, device, pd) && RangeContains(m.addr, m.len, addr, len))
  }

  function FindOverlappingMr(tree: seq<Mr>, device: int, pd: Word, addr: Word, len: Word): Option<Mr> {
    Neighbour(tree, (m: Mr) => KeyBelow(m, device, pd, addr),
              (m: Mr) => Grouped(m, device, pd) && RangeOverlaps(m.addr, m.len, addr, len))
  }

  function InsertMr(tree: seq<Mr>, m: Mr): Option<seq<Mr>> {
    var i := NFind(tree, (q: Mr) => KeyBelow(q, m.device, m.pd, m.addr));
    if i < |tree| && Grouped(tree[i], m.device, m.pd) && tree[i].addr == m.addr then None
    else Some(InsertAt(tree, i, m))
  }

  ghost function MrSet(tree: seq<Mr>): set<Mr> {
    set m | m in tree
  }

  ghost function View(regions: seq<Region>, mrs: seq<Mr>): Cache {
    Cache(RegionSet(regions), MrSet(mrs))
  }

  // ----- the neighbour lookups agree with a scan of the whole tree -----

  /** Every region left of both neighbours ends at or before the query. */
  lemma LeftOfNeighbours(tree: seq<Region>, i: nat, k: nat)
    requires RegionsSorted(tree) && SeparateRegions(RegionSet(tree))
    requires k + 1 < i <= |tree|
    ensures tree[k].addr + tree[k].len <= tree[i - 1].addr
  {
    assert tree[k] in RegionSet(tree) && tree[i - 1] in RegionSet(tree);
    assert Disjoint(tree[k], tree[i - 1]) && Ordinary(tree[i - 1]);
  }

  lemma FindRegionComplete(tree: seq<Region>, addr: Word, len: Word)
    requires RegionsSorted(tree) && SeparateRegions(RegionSet(tree))
    ensures FindRegion(tree, addr, len).Some? <==> exists r :: r in tree && Holds(r, addr, len)
  {
    var i := NFind(tree, (r: Region) => r.addr < addr);
    forall k | 0 <= k < |tree| && k != i && k + 1 != i ensures !Holds(tree[k], addr, len) {
      assert tree[k] in RegionSet(tree);
      if k < i { LeftOfNeighbours(tree, i, k); }
    }
  }

  lemma FindOverlappingRegionComplete(tree: seq<Region>, addr: Word, len: Word)
    requires RegionsSorted(tree) && SeparateRegions(RegionSet(tree))
    ensures FindOverlappingRegion(tree, addr, len).Some? <==> exists r :: r in tree && Meets(r, addr, len)
  {
    var i := NFind(tree, (r: Region) => r.addr < addr);
    forall k | 0 <= k < |tree| && k != i && k + 1 != i
      ensures Meets(tree[k], addr, len) ==> i < |tree| && Meets(tree[i], addr, len)
    {
      assert tree[k] in RegionSet(tree);
      if k < i {
        LeftOfNeighbours(tree, i, k);
      } else {
        assert tree[i] in RegionSet(tree);
      }
    }
  }

  /** Entries of one group are contiguous in the tree and, in a healthy cache, disjoint. */
  ghost predicate GroupsSeparate(tree: seq<Mr>) {
    && (forall m <- tree :: Ordinary(RegionOf(m)))
    && (forall m <- tree, n <- tree :: m != n && Grouped(m, n.device, n.pd) ==> Disjoint(RegionOf(m), RegionOf(n)))
  }

  lemma InvSeparatesGroups(regions: seq<Region>, mrs: seq<Mr>)
    requires Inv(View(regions, mrs))
    ensures GroupsSeparate(mrs)
  {
    forall m <- mrs, n <- mrs | m != n && Grouped(m, n.device, n.pd)
      ensures Disjoint(RegionOf(m), RegionOf(n))
    {
      assert m in MrSet(mrs) && n in MrSet(mrs);
      assert RegionOf(m) != RegionOf(n);
    }
    forall m <- mrs ensures Ordinary(RegionOf(m)) {
      assert m in MrSet(mrs);
    }
  }

  /** Every MR of the group left of both neighbours ends at or before the query. */
  lemma GroupLeftOfNeighbours(tree: seq<Mr>, i: nat, k: nat, device: int, pd: Word, addr: Word)
    requires MrsSorted(tree) && GroupsSeparate(tree)
    requires k + 1 < i <= |tree| && KeyBelow(tree[i - 1], device, pd, addr)
    requires Grouped(tree[k], device, pd)
    ensures tree[k].addr + tree[k].len <= tree[i - 1].addr < addr
  {
    assert KeyBelow(tree[k], tree[i - 1].device, tree[i - 1].pd, tree[i - 1].addr);
    assert Disjoint(RegionOf(tree[k]), RegionOf(tree[i - 1])) && Ordinary(RegionOf(tree[i - 1]));
  }

  /** An MR of the group right of the first neighbour starts after it, in the same group. */
  lemma GroupRightOfNeighbour(tree: seq<Mr>, i: nat, k: nat, device: int, pd: Word, addr: Word)
    requires MrsSorted(tree) && i < k < |tree|
    requires !KeyBelow(tree[i], device, pd, addr) && Grouped(tree[k], device, pd)
    ensures Grouped(tree[i], device, pd) && addr <= tree[i].addr < tree[k].addr
  {
    assert KeyBelow(tree[i], tree[k].device, tree[k].pd, tree[k].addr);
  }

  lemma FindMrComplete(tree: seq<Mr>, device: int, pd: Word, addr: Word, len: Word)
    requires MrsSorted(tree) && GroupsSeparate(tree)
    ensures FindMr(tree, device, pd, addr, len).Some? <==>
            exists m :: m in tree && Grouped(m, device, pd) && RangeContains(m.addr, m.len, addr, len)
  {
    var i := NFind(tree, (m: Mr) => KeyBelow(m, device, pd, addr));
    forall k | 0 <= k < |tree| && k != i && k + 1 != i && Grouped(tree[k], device, pd)
      ensures !RangeContains(tree[k].addr, tree[k].len, addr, len)
    {
      if k < i {
        assert Ordinary(RegionOf(tree[k]));
        GroupLeftOfNeighbours(tree, i, k, device, pd, addr);
      } else {
        GroupRightOfNeighbour(tree, i, k, device, pd, addr);
      }
    }
  }

  lemma FindOverlappingMrComplete(tree: seq<Mr>, device: int, pd: Word, addr: Word, len: Word)
    requires MrsSorted(tree) && GroupsSeparate(tree)
    ensures FindOverlappingMr(tree, device, pd, addr, len).Some? <==>
            exists m :: m in tree && Grouped(m, device, pd) && RangeOverlaps(m.addr, m.len, addr, len)
  {
    var i := NFind(tree, (m: Mr) => KeyBelow(m, device, pd, addr));
    forall k | 0 <= k < |tree| && k != i && k + 1 != i && Grouped(tree[k], device, pd)
      ensures RangeOverlaps(tree[k].addr, tree[k].len, addr, len) ==>
                i < |tree| && Grouped(tree[i], device, pd) && RangeOverlaps(tree[i].addr, tree[i].len, addr, len)
    {
      assert Ordinary(RegionOf(tree[k]));
      if k < i {
        GroupLeftOfNeighbours(tree, i, k, device, pd, addr);
      } else {
        assert Ordinary(RegionOf(tree[i]));
        GroupRightOfNeighbour(tree, i, k, device, pd, addr);
      }
    }
  }

  /**
   A miss of `FindMr` for a range inside a declared region means that no MR of the region's device
   and this protection domain meets the whole region, so registering the region cannot collide.
   */
  lemma MissMeansNoCollision(regions: seq<Region>, mrs: seq<Mr>, r: Region, pd: Word, addr: Word, len: Word)
    requires RegionsSorted(regions) && MrsSorted(mrs) && Inv(View(regions, mrs))
    requires r in regions && Holds(r, addr, len)
    requires FindMr(mrs, r.device, pd, addr, len).None?
    ensures FindOverlappingMr(mrs, r.device, pd, r.addr, r.len).None?
    ensures forall m <- mrs :: !(Grouped(m, r.device, pd) && m.addr == r.addr)
  {
    InvSeparatesGroups(regions, mrs);
    FindMrComplete(mrs, r.device, pd, addr, len);
    FindOverlappingMrComplete(mrs, r.device, pd, r.addr, r.len);
    assert r in RegionSet(regions);
    forall m <- mrs | Grouped(m, r.device, pd) ensures !RangeOverlaps(m.addr, m.len, r.addr, r.len) {
      assert m in MrSet(mrs) && RegionOf(m) != r;
      assert Disjoint(RegionOf(m), r);
    }
  }

  /** A hit of `FindMr` for a non-empty range inside a region is that region's own MR. */
  lemma HitIsOwn(regions: seq<Region>, mrs: seq<Mr>, r: Region, pd: Word, addr: Word, len: Word)
    requires Inv(View(regions, mrs)) && r in regions && Holds(r, addr, len)
    requires FindMr(mrs, r.device, pd, addr, len).Some?
    ensures var m := FindMr(mrs, r.device, pd, addr, len).value;
            m in mrs && m.pd == pd && m.device == r.device &&
            Holds(RegionOf(m), addr, len) && (RegionOf(m) == r || len == 0)
  {
    var m := FindMr(mrs, r.device, pd, addr, len).value;
    assert m in MrSet(mrs) && r in RegionSet(regions);
    assert RegionOf(m) != r ==> Disjoint(RegionOf(m), r);
  }

  // ----- insertion -----

  lemma InsertRegionKeeps(tree: seq<Region>, r: Region)
    requires RegionsSorted(tree)
    ensures InsertRegion(tree, r).None? <==> exists q :: q in tree && q.addr == r.addr
    ensures InsertRegion(tree, r).Some? ==>
              RegionsSorted(InsertRegion(tree, r).value) &&
              RegionSet(InsertRegion(tree, r).value) == RegionSet(tree) + {r}
  {
    var i := NFind(tree, (q: Region) => q.addr < r.addr);
    if InsertRegion(tree, r).Some? {
      assert RegionSet(InsertAt(tree, i, r)) == RegionSet(tree) + {r};
      forall k | 0 <= k < |tree| ensures tree[k].addr != r.addr {
        assert k > i ==> tree[i].addr < tree[k].addr;
      }
    }
  }

  lemma InsertMrKeeps(tree: seq<Mr>, m: Mr)
    requires MrsSorted(tree)
    ensures InsertMr(tree, m).None? <==> exists q :: q in tree && Grouped(q, m.device, m.pd) && q.addr == m.addr
    ensures InsertMr(tree, m).Some? ==>
              MrsSorted(InsertMr(tree, m).value) && MrSet(InsertMr(tree, m).value) == MrSet(tree) + {m}
  {
    var i := NFind(tree, (q: Mr) => KeyBelow(q, m.device, m.pd, m.addr));
    forall k | i < k < |tree| ensures !KeyBelow(tree[k], m.device, m.pd, m.addr) {
      assert KeyBelow(tree[i], tree[k].device, tree[k].pd, tree[k].addr);
    }
    if InsertMr(tree, m).Some? {
      var out := InsertAt(tree, i, m);
      assert MrSet(out) == MrSet(tree) + {m};
      forall k | 0 <= k < |tree| ensures !(Grouped(tree[k], m.device, m.pd) && tree[k].addr == m.addr) {
        assert k > i ==> KeyBelow(tree[i], tree[k].device, tree[k].pd, tree[k].addr);
      }
    }
  }

  // ----- empty ranges -----

  /** A region that starts at the query's address is the lookup's first neighbour. */
  lemma StartingRegionFound(tree: seq<Region>, q: Region)
    requires RegionsSorted(tree) && q in tree && Ordinary(q)
    ensures FindRegion(tree, q.addr, 0) == Some(q)
  {
    var k :| 0 <= k < |tree| && tree[k] == q;
    assert forall j :: 0 <= j < k ==> tree[j].addr < q.addr;
    assert NFind(tree, (r: Region) => r.addr < q.addr) == k;
  }

  lemma StartingMrFound(tree: seq<Mr>, m: Mr)
    requires MrsSorted(tree) && m in tree && Ordinary(RegionOf(m))
    ensures FindMr(tree, m.device, m.pd, m.addr, 0) == Some(m)
  {
    var k :| 0 <= k < |tree| && tree[k] == m;
    assert forall j :: 0 <= j < k ==> KeyBelow(tree[j], m.device, m.pd, m.addr);
    assert NFind(tree, (n: Mr) => KeyBelow(n, m.device, m.pd, m.addr)) == k;
  }

  /** The region has an MR of its own for the protection domain. */
  ghost predicate HasMr(mrs: seq<Mr>, r: Region, pd: Word) {
    exists m :: m in mrs && RegionOf(m) == r && m.pd == pd
  }

  /** Some MR of the device and protection domain ends just where the range starts. */
  ghost predicate EndsAt(mrs: seq<Mr>, device: int, pd: Word, addr: Word) {
    exists m :: m in mrs && Grouped(m, device, pd) && m.addr + m.len == addr
  }

  /**
   An empty range found in region `r` is served by another region's MR exactly when `r` starts there,
   has no MR of its own for the protection domain, and a region of its device that ends there has one.
   */
  lemma EmptyHitForeignIff(regions: seq<Region>, mrs: seq<Mr>, r: Region, pd: Word, addr: Word)
    requires RegionsSorted(regions) && MrsSorted(mrs) && Inv(View(regions, mrs)) &&
             FindRegion(regions, addr, 0) == Some(r)
    ensures (FindMr(mrs, r.device, pd, addr, 0).Some? && RegionOf(FindMr(mrs, r.device, pd, addr, 0).value) != r) <==>
            r.addr == addr && !HasMr(mrs, r, pd) && EndsAt(mrs, r.device, pd, addr)
  {
    InvSeparatesGroups(regions, mrs);
    FindMrComplete(mrs, r.device, pd, addr, 0);
    assert r in RegionSet(regions) && Ordinary(r) && Holds(r, addr, 0);
    var found := FindMr(mrs, r.device, pd, addr, 0);
    if found.Some? && RegionOf(found.value) != r {
      ForeignBorder(regions, mrs, r, found.value, addr);
      if m :| m in mrs && RegionOf(m) == r && m.pd == pd { StartingMrFound(mrs, m); }
    }
    if m :| m in mrs && Grouped(m, r.device, pd) && m.addr + m.len == addr {
      assert Ordinary(RegionOf(m)) && RangeContains(m.addr, m.len, addr, 0);
    }
  }

  lemma ForeignBorder(regions: seq<Region>, mrs: seq<Mr>, r: Region, m: Mr, addr: Word)
    requires RegionsSorted(regions) && Inv(View(regions, mrs)) && FindRegion(regions, addr, 0) == Some(r)
    requires m in mrs && RegionOf(m) != r && RangeContains(m.addr, m.len, addr, 0)
    ensures r.addr == addr == m.addr + m.len
  {
    var q := RegionOf(m);
    assert m in MrSet(mrs) && r in RegionSet(regions) && q in RegionSet(regions) && Disjoint(q, r) && Ordinary(q) &&
           Ordinary(r);
    assert Holds(r, addr, 0);
    assert q.addr != addr by {
      if q.addr == addr { StartingRegionFound(regions, q); }
    }
  }

  /** An empty range on a shared boundary is found in the right region and served by the left one's MR. */
  lemma EmptyRangeExample(left: IbvMr)
    ensures var a, b := Region(0x1000, 0x1000, 0), Region(0x2000, 0x1000, 0);
            var m := Mr(0x1000, 0x1000, 0, 7, left);
            FindRegion([a, b], 0x2000, 0) == Some(b) && FindMr([m], 0, 7, 0x2000, 0) == Some(m)
  {
    var a, b := Region(0x1000, 0x1000, 0), Region(0x2000, 0x1000, 0);
    var m := Mr(0x1000, 0x1000, 0, 7, left);
    assert NFind([a, b], (q: Region) => q.addr < 0x2000) == 1;
    assert NFind([m], (q: Mr) => KeyBelow(q, 0, 7, 0x2000)) == 1;
  }
}
