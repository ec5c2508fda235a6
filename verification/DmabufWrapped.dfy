/**
 A registration whose end wraps around 2^64. The code neither rejects nor supports it: it passes every
 check, goes into the region tree and can spoil the two-neighbour lookups. This module says exactly when.
 */
module DmabufWrapped {
  import opened Machine
  import opened DmabufSpec
  import opened DmabufLookup

  ghost predicate Wrapped(w: Region) {
    w.len > 0 && w.addr + w.len >= WORD_SPAN
  }

  /** `w` starts inside `r` and is not on its last byte. */
  ghost predicate StartsInside(w: Region, r: Region) {
    r.addr < w.addr && w.addr + 1 < r.addr + r.len
  }

  /** Some region starts after `w`. */
  ghost predicate Followed(tree: seq<Region>, w: Region) {
    exists r :: r in tree && w.addr < r.addr
  }

  ghost predicate Somewhere(tree: seq<Region>, addr: Word, len: Word) {
    exists r :: r in tree && Holds(r, addr, len)
  }

  ghost predicate Crossing(tree: seq<Region>, addr: Word, len: Word) {
    exists r :: r in tree && Meets(r, addr, len)
  }

  /** `FindRegion` answers like a scan of the whole tree, for every non-empty query. */
  ghost predicate LookupFaithful(tree: seq<Region>) {
    forall addr: Word, len: Word | len > 0 :: FindRegion(tree, addr, len).Some? <==> Somewhere(tree, addr, len)
  }

  /** `FindOverlappingRegion` answers like a scan of the whole tree, for every non-empty query. */
  ghost predicate OverlapFaithful(tree: seq<Region>) {
    forall addr: Word, len: Word | len > 0 ::
      FindOverlappingRegion(tree, addr, len).Some? <==> Crossing(tree, addr, len)
  }

  /** A region that wraps around holds no range and meets no range. */
  lemma WrappedIsDead(w: Region, addr: Word, len: Word)
    requires Wrapped(w)
    ensures !Holds(w, addr, len) && !Meets(w, addr, len) && !RangeOverlaps(addr, len, w.addr, w.len)
  {
  }

  /** A wrapped region passes the containment and the overlap check of every tree. */
  lemma WrappedPassesChecks(tree: seq<Region>, w: Region)
    requires Wrapped(w)
    ensures FindRegion(tree, w.addr, w.len).None? && FindOverlappingRegion(tree, w.addr, w.len).None?
  {
  }

  // ----- a sorted tree with one wrapped entry -----

  ghost predicate EndsBy(a: Region, b: Region) {
    a.addr + a.len <= b.addr
  }

  /** Entry p is wrapped; all others are ordinary and disjoint. */
  ghost predicate Spoiled(tree: seq<Region>, p: nat) {
    && p < |tree| && RegionsSorted(tree) && Wrapped(tree[p])
    && (forall k :: 0 <= k < |tree| && k != p ==> Ordinary(tree[k]))
    && (forall j, k :: 0 <= j < k < |tree| && j != p && k != p ==> EndsBy(tree[j], tree[k]))
  }

  /** The wrapped entry starts inside the region before it. */
  ghost predicate Inside(tree: seq<Region>, p: nat)
    requires p < |tree|
  {
    p > 0 && StartsInside(tree[p], tree[p - 1])
  }

  /** The region before the wrapped entry reaches beyond this byte. */
  ghost predicate Reaches(tree: seq<Region>, p: nat, byte: int)
    requires p < |tree|
  {
    p > 0 && byte < tree[p - 1].addr + tree[p - 1].len
  }

  /** Both lookups inspect entry i and the one before it. */
  ghost predicate Position(tree: seq<Region>, i: nat, addr: Word) {
    i <= |tree| && (i > 0 ==> tree[i - 1].addr < addr) && (i < |tree| ==> addr <= tree[i].addr)
  }

  lemma Inspected(tree: seq<Region>, i: nat, addr: Word, len: Word)
    requires RegionsSorted(tree) && Position(tree, i, addr)
    ensures FindRegion(tree, addr, len).Some? <==>
            (i < |tree| && Holds(tree[i], addr, len)) || (i > 0 && Holds(tree[i - 1], addr, len))
    ensures FindOverlappingRegion(tree, addr, len).Some? <==>
            (i < |tree| && Meets(tree[i], addr, len)) || (i > 0 && Meets(tree[i - 1], addr, len))
  {
    PositionUnique(tree, i, addr);
  }

  lemma PositionUnique(tree: seq<Region>, i: nat, addr: Word)
    requires RegionsSorted(tree) && Position(tree, i, addr)
    ensures NFind(tree, (q: Region) => q.addr < addr) == i
  {
    forall k | 0 <= k < i ensures tree[k].addr < addr {
      if k < i - 1 { assert tree[k].addr < tree[i - 1].addr; }
    }
  }

  lemma PositionOf(tree: seq<Region>, addr: Word) returns (i: nat)
    requires RegionsSorted(tree)
    ensures Position(tree, i, addr)
  {
    i := NFind(tree, (q: Region) => q.addr < addr);
  }

  /** Entries left of both neighbours miss the query. */
  lemma LeftMisses(tree: seq<Region>, p: nat, i: nat, k: nat, addr: Word, len: Word)
    requires Spoiled(tree, p) && Position(tree, i, addr) && k + 1 < i && k != p && !Inside(tree, p)
    ensures !Meets(tree[k], addr, len) && (len > 0 ==> !Holds(tree[k], addr, len))
  {
    assert Ordinary(tree[k]) && tree[i - 1].addr < addr;
    if i - 1 != p {
      assert EndsBy(tree[k], tree[i - 1]);
    } else if k < p - 1 {
      assert EndsBy(tree[k], tree[p - 1]) && tree[p - 1].addr < tree[p].addr;
    }
  }

  /**
   An entry right of the first neighbour that meets the query is announced by that neighbour, unless it is
   wrapped.
   */
  lemma RightAnnounces(tree: seq<Region>, p: nat, i: nat, k: nat, addr: Word, len: Word)
    requires Spoiled(tree, p) && Position(tree, i, addr) && i < k < |tree|
    ensures !Holds(tree[k], addr, len)
    ensures Meets(tree[k], addr, len) && i != p ==> Meets(tree[i], addr, len)
  {
    assert tree[i].addr < tree[k].addr;
    if i != p { assert Ordinary(tree[i]); }
  }

  lemma ContainmentKept(tree: seq<Region>, p: nat)
    requires Spoiled(tree, p) && !Inside(tree, p)
    ensures LookupFaithful(tree)
  {
    forall addr: Word, len: Word | len > 0 ensures FindRegion(tree, addr, len).Some? <==> Somewhere(tree, addr, len) {
      var i := PositionOf(tree, addr);
      Inspected(tree, i, addr, len);
      forall k | 0 <= k < |tree| && k != i && k + 1 != i ensures !Holds(tree[k], addr, len) {
        WrappedIsDead(tree[p], addr, len);
        if k < i && k != p { LeftMisses(tree, p, i, k, addr, len); }
        if k > i { RightAnnounces(tree, p, i, k, addr, len); }
      }
    }
  }

  /**
   An overlap is still seen unless the first neighbour is the wrapped entry and the one before it misses
   the query.
   */
  lemma OverlapSeen(tree: seq<Region>, p: nat, i: nat, addr: Word, len: Word)
    requires Spoiled(tree, p) && !Inside(tree, p) && Position(tree, i, addr)
    requires i != p || p + 1 == |tree| || (p > 0 && Meets(tree[p - 1], addr, len))
    ensures FindOverlappingRegion(tree, addr, len).Some? <==> Crossing(tree, addr, len)
  {
    Inspected(tree, i, addr, len);
    WrappedIsDead(tree[p], addr, len);
    forall k | 0 <= k < |tree| && k != i && k + 1 != i && Meets(tree[k], addr, len)
      ensures FindOverlappingRegion(tree, addr, len).Some?
    {
      SeenFrom(tree, p, i, k, addr, len);
    }
  }

  lemma SeenFrom(tree: seq<Region>, p: nat, i: nat, k: nat, addr: Word, len: Word)
    requires Spoiled(tree, p) && !Inside(tree, p) && Position(tree, i, addr)
    requires i != p || p + 1 == |tree| || (p > 0 && Meets(tree[p - 1], addr, len))
    requires k < |tree| && k != i && k + 1 != i
    ensures Meets(tree[k], addr, len) ==>
              (i < |tree| && Meets(tree[i], addr, len)) || (i > 0 && Meets(tree[i - 1], addr, len))
  {
    WrappedIsDead(tree[p], addr, len);
    if k < i && k != p { LeftMisses(tree, p, i, k, addr, len); }
    if k > i { RightAnnounces(tree, p, i, k, addr, len); }
  }

  /** A query at or before the wrapped entry that reaches the next region and misses the one before goes unseen. */
  lemma HiddenAhead(tree: seq<Region>, p: nat, addr: Word, len: Word)
    requires Spoiled(tree, p) && p + 1 < |tree| && addr <= tree[p].addr && !Reaches(tree, p, addr)
    requires tree[p + 1].addr < addr + len < WORD_SPAN
    ensures Meets(tree[p + 1], addr, len)
    ensures FindOverlappingRegion(tree, addr, len).None? && FindRegion(tree, addr, len).None?
    ensures addr < tree[p].addr ==> forall q <- tree :: q.addr != addr
  {
    assert Ordinary(tree[p + 1]) && tree[p].addr < tree[p + 1].addr;
    if p > 0 { assert Ordinary(tree[p - 1]); }
    assert Position(tree, p, addr);
    Inspected(tree, p, addr, len);
    WrappedIsDead(tree[p], addr, len);
    if addr < tree[p].addr { KeyFree(tree, p, addr); }
  }

  /** The byte after the start of a wrapped entry inside a region goes unseen. */
  lemma HiddenInside(tree: seq<Region>, p: nat, addr: Word)
    requires Spoiled(tree, p) && Inside(tree, p) && addr == tree[p].addr + 1
    ensures addr + 1 < WORD_SPAN && Holds(tree[p - 1], addr, 1) && Meets(tree[p - 1], addr, 1)
    ensures FindOverlappingRegion(tree, addr, 1).None? && FindRegion(tree, addr, 1).None?
    ensures forall q <- tree :: q.addr != addr
  {
    assert Ordinary(tree[p - 1]);
    if p + 1 < |tree| { assert EndsBy(tree[p - 1], tree[p + 1]); }
    assert Position(tree, p + 1, addr);
    Inspected(tree, p + 1, addr, 1);
    WrappedIsDead(tree[p], addr, 1);
    KeyFree(tree, p + 1, addr);
  }

  lemma KeyFree(tree: seq<Region>, i: nat, addr: Word)
    requires RegionsSorted(tree) && Position(tree, i, addr) && (i < |tree| ==> tree[i].addr != addr)
    ensures forall q <- tree :: q.addr != addr
  {
    forall k | 0 <= k < |tree| ensures tree[k].addr != addr {
      if k < i - 1 { assert tree[k].addr < tree[i - 1].addr; }
      if i < k { assert tree[i].addr < tree[k].addr; }
    }
  }

  lemma ContainmentIff(tree: seq<Region>, p: nat)
    requires Spoiled(tree, p)
    ensures LookupFaithful(tree) <==> !Inside(tree, p)
  {
    if Inside(tree, p) {
      var addr: Word := tree[p].addr + 1;
      HiddenInside(tree, p, addr);
      assert tree[p - 1] in tree && Somewhere(tree, addr, 1);
    } else {
      ContainmentKept(tree, p);
    }
  }

  lemma OverlapIff(tree: seq<Region>, p: nat)
    requires Spoiled(tree, p)
    ensures OverlapFaithful(tree) <==> !Inside(tree, p) && (p + 1 == |tree| || Reaches(tree, p, tree[p].addr))
  {
    if Inside(tree, p) {
      var addr: Word := tree[p].addr + 1;
      HiddenInside(tree, p, addr);
      assert tree[p - 1] in tree && Crossing(tree, addr, 1);
    } else if p + 1 < |tree| && !Reaches(tree, p, tree[p].addr) {
      assert Ordinary(tree[p + 1]) && tree[p].addr < tree[p + 1].addr;
      var addr, len: Word := tree[p].addr, tree[p + 1].addr - tree[p].addr + 1;
      HiddenAhead(tree, p, addr, len);
      assert tree[p + 1] in tree && Crossing(tree, addr, len);
    } else {
      OverlapKept(tree, p);
    }
  }

  lemma OverlapKept(tree: seq<Region>, p: nat)
    requires Spoiled(tree, p) && !Inside(tree, p) && (p + 1 == |tree| || Reaches(tree, p, tree[p].addr))
    ensures OverlapFaithful(tree)
  {
    forall addr: Word, len: Word | len > 0
      ensures FindOverlappingRegion(tree, addr, len).Some? <==> Crossing(tree, addr, len) {
      var i := PositionOf(tree, addr);
      if addr + len < WORD_SPAN {
        if p > 0 { assert Ordinary(tree[p - 1]); }
        OverlapSeen(tree, p, i, addr, len);
      } else {
        assert !Crossing(tree, addr, len);
      }
    }
  }

  // ----- the next registration -----

  /** The checks of add_region let this ordinary range in. */
  ghost predicate Admitted(tree: seq<Region>, q: Region) {
    && Ordinary(q) && q.addr != 0 && (forall r <- tree :: r.addr != q.addr)
    && FindRegion(tree, q.addr, q.len).None? && FindOverlappingRegion(tree, q.addr, q.len).None?
  }

  /** Whatever ordinary range is admitted next shares no byte with an ordinary region of the tree. */
  ghost predicate NextKeepsApart(tree: seq<Region>) {
    forall q, r | Admitted(tree, q) && r in tree && Ordinary(r) :: Disjoint(r, q)
  }

  lemma NextIff(tree: seq<Region>, p: nat)
    requires Spoiled(tree, p) && tree[p].addr != 0
    ensures NextKeepsApart(tree) <==>
            !Inside(tree, p) && (p + 1 == |tree| || tree[p].addr == 1 || Reaches(tree, p, tree[p].addr - 1))
  {
    if Inside(tree, p) {
      var q := Region(tree[p].addr + 1, 1, 0);
      HiddenInside(tree, p, q.addr);
      assert Admitted(tree, q) && tree[p - 1] in tree && Ordinary(tree[p - 1]) && !Disjoint(tree[p - 1], q);
    } else if p + 1 < |tree| && tree[p].addr != 1 && !Reaches(tree, p, tree[p].addr - 1) {
      assert Ordinary(tree[p + 1]) && tree[p].addr < tree[p + 1].addr;
      var q := Region(tree[p].addr - 1, tree[p + 1].addr - tree[p].addr + 2, 0);
      HiddenAhead(tree, p, q.addr, q.len);
      assert Admitted(tree, q) && tree[p + 1] in tree && !Disjoint(tree[p + 1], q);
    } else {
      forall q, r | Admitted(tree, q) && r in tree && Ordinary(r) ensures Disjoint(r, q) {
        NextApart(tree, p, q, r);
      }
    }
  }

  lemma NextApart(tree: seq<Region>, p: nat, q: Region, r: Region)
    requires Spoiled(tree, p) && !Inside(tree, p) && Admitted(tree, q) && r in tree && Ordinary(r)
    requires p + 1 == |tree| || tree[p].addr == 1 || Reaches(tree, p, tree[p].addr - 1)
    ensures Disjoint(r, q)
  {
    var i := PositionOf(tree, q.addr);
    assert tree[p] in tree && q.addr != tree[p].addr;
    if p > 0 { assert Ordinary(tree[p - 1]); }
    OverlapSeen(tree, p, i, q.addr, q.len);
    assert !Crossing(tree, q.addr, q.len) && !Meets(r, q.addr, q.len);
  }

  // ----- in terms of the tree before the registration -----

  ghost predicate Splits(tree: seq<Region>, p: nat, w: Region) {
    && p <= |tree|
    && (forall k :: 0 <= k < p ==> tree[k].addr < w.addr)
    && (forall k :: p <= k < |tree| ==> w.addr < tree[k].addr)
  }

  /** Where `RB_INSERT` puts a wrapped region whose key is free. */
  lemma InsertSpoils(tree: seq<Region>, w: Region) returns (p: nat)
    requires RegionsSorted(tree) && SeparateRegions(RegionSet(tree)) && Wrapped(w) && InsertRegion(tree, w).Some?
    ensures Splits(tree, p, w) && InsertRegion(tree, w) == Some(InsertAt(tree, p, w)) &&
            Spoiled(InsertAt(tree, p, w), p)
  {
    p := NFind(tree, (q: Region) => q.addr < w.addr);
    forall k | p < k < |tree| ensures w.addr < tree[k].addr {
      assert tree[p].addr < tree[k].addr;
    }
    InsertedSpoils(tree, p, w, InsertAt(tree, p, w));
  }

  lemma InsertedSpoils(tree: seq<Region>, p: nat, w: Region, out: seq<Region>)
    requires RegionsSorted(tree) && SeparateRegions(RegionSet(tree)) && Wrapped(w) && Splits(tree, p, w)
    requires |out| == |tree| + 1 && out[p] == w
    requires (forall k :: 0 <= k < p ==> out[k] == tree[k]) && (forall k :: p < k < |out| ==> out[k] == tree[k - 1])
    ensures Spoiled(out, p)
  {
    forall j, k | 0 <= j < k < |tree| ensures EndsBy(tree[j], tree[k]) {
      assert tree[j] in RegionSet(tree) && tree[k] in RegionSet(tree) && tree[j].addr < tree[k].addr;
      assert Disjoint(tree[j], tree[k]) && Ordinary(tree[k]);
    }
    forall k | 0 <= k < |tree| ensures Ordinary(tree[k]) {
      assert tree[k] in RegionSet(tree);
    }
    forall k | 0 <= k < |out| && k != p ensures Ordinary(out[k]) {
      assert out[k] == tree[if k < p then k else k - 1];
    }
    forall j, k | 0 <= j < k < |out| && j != p && k != p ensures EndsBy(out[j], out[k]) {
      assert EndsBy(tree[if j < p then j else j - 1], tree[if k < p then k else k - 1]);
    }
  }

  /** The conditions on positions, said of the declared regions. */
  lemma Conditions(tree: seq<Region>, p: nat, w: Region, out: seq<Region>, byte: Word)
    requires RegionsSorted(tree) && SeparateRegions(RegionSet(tree)) && Splits(tree, p, w) && byte <= w.addr <= byte + 1
    requires |out| == |tree| + 1 && out[p] == w && (p > 0 ==> out[p - 1] == tree[p - 1]) && byte + 1 < WORD_SPAN
    ensures Inside(out, p) <==> exists r :: r in tree && StartsInside(w, r)
    ensures p + 1 < |out| <==> Followed(tree, w)
    ensures Reaches(out, p, byte) <==> Somewhere(tree, byte, 1)
  {
    forall k | 0 <= k < |tree| ensures Ordinary(tree[k]) && (k < p - 1 ==> EndsBy(tree[k], tree[p - 1])) {
      assert tree[k] in RegionSet(tree);
      if k < p - 1 { assert tree[p - 1] in RegionSet(tree) && Disjoint(tree[k], tree[p - 1]) && Ordinary(tree[p - 1]); }
    }
    if p > 0 { assert tree[p - 1] in tree; }
    if p < |tree| { assert tree[p] in tree; }
    if r :| r in tree && StartsInside(w, r) { LastBefore(tree, p, w, r); }
    if r :| r in tree && Holds(r, byte, 1) { LastBefore(tree, p, w, r); }
    if Reaches(out, p, byte) { assert Holds(tree[p - 1], byte, 1); }
  }

  /** A region that reaches the start of `w`, or the byte before it, from before is the last one before `w`. */
  lemma LastBefore(tree: seq<Region>, p: nat, w: Region, r: Region)
    requires Splits(tree, p, w) && r in tree && r.addr < w.addr <= r.addr + r.len
    requires forall k :: 0 <= k < p - 1 ==> EndsBy(tree[k], tree[p - 1])
    ensures p > 0 && r == tree[p - 1]
  {
    forall k | 0 <= k < p - 1 ensures tree[k] != r {
      assert EndsBy(tree[k], tree[p - 1]) && tree[p - 1].addr < w.addr;
    }
    var k :| 0 <= k < |tree| && tree[k] == r;
    assert k == p - 1;
  }

  /** `out` is the tree with `w` at position p. */
  ghost predicate With(tree: seq<Region>, p: nat, w: Region, out: seq<Region>) {
    && RegionsSorted(tree) && SeparateRegions(RegionSet(tree)) && Splits(tree, p, w)
    && |out| == |tree| + 1 && out[p] == w && (p > 0 ==> out[p - 1] == tree[p - 1]) && Spoiled(out, p)
  }

  lemma InsertedWith(tree: seq<Region>, w: Region) returns (p: nat)
    requires RegionsSorted(tree) && SeparateRegions(RegionSet(tree)) && Wrapped(w) && InsertRegion(tree, w).Some?
    ensures With(tree, p, w, InsertRegion(tree, w).value)
  {
    p := InsertSpoils(tree, w);
  }

  /**
   A wrapped region `w` passes the checks and goes into the tree. The containment lookup then agrees
   with a full scan exactly when `w` does not start inside a declared region.
   */
  lemma WrappedInsertFaithfulIff(tree: seq<Region>, w: Region)
    requires RegionsSorted(tree) && SeparateRegions(RegionSet(tree)) && Wrapped(w) && InsertRegion(tree, w).Some?
    ensures LookupFaithful(InsertRegion(tree, w).value) <==> forall r <- tree :: !StartsInside(w, r)
  {
    var p := InsertedWith(tree, w);
    ContainmentIff(InsertRegion(tree, w).value, p);
    Conditions(tree, p, w, InsertRegion(tree, w).value, if w.addr == 0 then 0 else w.addr - 1);
  }

  /**
   The overlap lookup then agrees with a full scan exactly when `w` does not start inside a region and
   either no region follows it or its first byte is declared.
   */
  lemma WrappedOverlapFaithfulIff(tree: seq<Region>, w: Region)
    requires RegionsSorted(tree) && SeparateRegions(RegionSet(tree)) && Wrapped(w) && InsertRegion(tree, w).Some?
    ensures OverlapFaithful(InsertRegion(tree, w).value) <==>
            (forall r <- tree :: !StartsInside(w, r)) && (!Followed(tree, w) || Somewhere(tree, w.addr, 1))
  {
    var p := InsertedWith(tree, w);
    OverlapIffRegions(tree, p, w, InsertRegion(tree, w).value);
  }

  lemma OverlapIffRegions(tree: seq<Region>, p: nat, w: Region, out: seq<Region>)
    requires With(tree, p, w, out)
    ensures OverlapFaithful(out) <==>
            (forall r <- tree :: !StartsInside(w, r)) && (!Followed(tree, w) || Somewhere(tree, w.addr, 1))
  {
    OverlapIff(out, p);
    if w.addr + 1 < WORD_SPAN {
      Conditions(tree, p, w, out, w.addr);
    } else {
      Conditions(tree, p, w, out, w.addr - 1);
    }
  }

  /**
   The next ordinary registration keeps the declared regions disjoint exactly when `w` does not start
   inside a region and either no region follows it, or the byte before it is declared, or there is no
   usable address before it.
   */
  lemma WrappedNextKeepsApartIff(tree: seq<Region>, w: Region)
    requires RegionsSorted(tree) && SeparateRegions(RegionSet(tree)) && Wrapped(w) && InsertRegion(tree, w).Some?
    requires w.addr != 0          // the code refuses to register address 0
    ensures NextKeepsApart(InsertRegion(tree, w).value) <==>
            && (forall r <- tree :: !StartsInside(w, r))
            && (!Followed(tree, w) || w.addr == 1 || Somewhere(tree, w.addr - 1, 1))
  {
    var p := InsertedWith(tree, w);
    NextIffRegions(tree, p, w, InsertRegion(tree, w).value);
  }

  lemma NextIffRegions(tree: seq<Region>, p: nat, w: Region, out: seq<Region>)
    requires With(tree, p, w, out) && w.addr != 0
    ensures NextKeepsApart(out) <==>
            && (forall r <- tree :: !StartsInside(w, r))
            && (!Followed(tree, w) || w.addr == 1 || Somewhere(tree, w.addr - 1, 1))
  {
    NextIff(out, p);
    Conditions(tree, p, w, out, w.addr - 1);
  }

  // ----- inputs -----

  /** A wrapped registration at 0x1800 makes half of the region at 0x1000 unreachable. */
  lemma WrappedExample()
    ensures var r, w := Region(0x1000, 0x1000, 0), Region(0x1800, WORD_SPAN - 0x1000, 0);
            && InsertRegion([r], w) == Some([r, w])
            && FindRegion([r], 0x1900, 16) == Some(r)
            && FindRegion([r, w], 0x1900, 16) == None && Holds(r, 0x1900, 16)
  {
    var r, w := Region(0x1000, 0x1000, 0), Region(0x1800, WORD_SPAN - 0x1000, 0);
    assert NFind([r], (q: Region) => q.addr < w.addr) == 1;
    assert InsertAt([r], 1, w) == [r, w];
    assert NFind([r], (q: Region) => q.addr < 0x1900) == 1;
    assert NFind([r, w], (q: Region) => q.addr < 0x1900) == 2;
  }

  /** A wrapped registration in front of a region lets an ordinary one in over that region. */
  lemma WrappedOverlapExample()
    ensures var r, w, q := Region(0x2000, 0x1000, 0), Region(0x1000, WORD_SPAN - 0x800, 0), Region(0x800, 0x2000, 0);
            && InsertRegion([r], w) == Some([w, r]) && !StartsInside(w, r)
            && FindOverlappingRegion([w, r], q.addr, q.len) == None && Meets(r, q.addr, q.len)
            && Admitted([w, r], q) && !Disjoint(r, q)
  {
    var r, w, q := Region(0x2000, 0x1000, 0), Region(0x1000, WORD_SPAN - 0x800, 0), Region(0x800, 0x2000, 0);
    assert NFind([r], (x: Region) => x.addr < w.addr) == 0;
    assert InsertAt([r], 0, w) == [w, r];
    assert NFind([w, r], (x: Region) => x.addr < q.addr) == 0;
  }
}
