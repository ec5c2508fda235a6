/**
 The layer behind the block ids: where each block lies, the buffers the connector hands to the store,
 and what saving and loading through them does.
 */
module BlockTransfer {
  import opened Machine
  import opened BlockCoalescing

  /**
   A contiguous layer tensor. With split planes all K blocks come first and all V blocks follow;
   otherwise (MLA) there is one plane.
   */
  datatype Layer = Layer(base: int, blockBytes: nat, blocks: nat, split: bool)
  {
    function Slots(): nat {
      if split then 2 * blocks else blocks
    }

    /** Address of a slot: a block of the first plane, or of the second after it. */
    function Address(slot: nat): int {
      base + slot * blockBytes
    }

    /** The slots of a block list, in the order in which they are transferred. */
    function SlotsOf(ids: seq<int>): seq<int> {
      if split then ids + Shift(ids, blocks) else ids
    }

    ghost predicate Holds(ids: seq<int>) {
      forall i :: 0 <= i < |ids| ==> 0 <= ids[i] < blocks
    }
  }

  function Shift(ids: seq<int>, delta: int): seq<int> {
    seq(|ids|, i requires 0 <= i < |ids| => ids[i] + delta)
  }

  /** A run of slots, the extent of one buffer. */
  datatype Run = Run(first: nat, count: nat)

  ghost function Range(first: int, count: nat): seq<int> {
    seq(count, i => first + i)
  }

  ghost function Expand(runs: seq<Run>): seq<int> {
    if runs == [] then [] else
      var last := runs[|runs| - 1];
      Expand(runs[..|runs| - 1]) + Range(last.first, last.count)
  }

  /** The buffer is this run of slots of the layer. */
  ghost predicate Extent(layer: Layer, ptr: int, size: nat, run: Run) {
    run.first + run.count <= layer.Slots() && ptr == layer.Address(run.first) && size == layer.blockBytes * run.count
  }

  ghost predicate Describes(layer: Layer, ptrs: seq<int>, sizes: seq<nat>, runs: seq<Run>) {
    |ptrs| == |sizes| == |runs| && forall i :: 0 <= i < |runs| ==> Extent(layer, ptrs[i], sizes[i], runs[i])
  }

  /** The buffers hold exactly these slots, in this order. */
  ghost predicate Buffers(layer: Layer, ptrs: seq<int>, sizes: seq<nat>, slots: seq<int>) {
    exists runs :: Describes(layer, ptrs, sizes, runs) && Expand(runs) == slots
  }

  /** _block_buffer_vectors: one buffer per maximal run of consecutive ids, plane by plane. */
  method BlockBufferVectors(layer: Layer, ids: seq<int>) returns (ptrs: seq<int>, sizes: seq<nat>)
    requires layer.Holds(ids)
    ensures Buffers(layer, ptrs, sizes, layer.SlotsOf(ids))
    ensures forall groups :: Grouped(groups) && Flatten(groups) == ids ==>
              |ptrs| == if layer.split then 2 * |groups| else |groups|
    // the groups of the first plane, then those of the second
    ensures forall groups :: Grouped(groups) && Flatten(groups) == ids ==>
              && PlaneAt(layer, ptrs, sizes, 0, groups, 0, |groups|)
              && (layer.split ==> PlaneAt(layer, ptrs, sizes, |groups|, groups, layer.blocks, |groups|))
  {
    if ids == [] {
      ptrs, sizes := [], [];
      assert Describes(layer, ptrs, sizes, []) && Expand([]) == layer.SlotsOf(ids);
      forall groups | Grouped(groups) && Flatten(groups) == ids ensures groups == [] { NonEmpty(groups); }
      return;
    }
    var groups := GroupContiguous(ids);
    ptrs, sizes := PlanesOf(layer, groups);
    forall other | Grouped(other) && Flatten(other) == ids ensures other == groups { GroupingUnique(other, groups); }
  }

  /** The buffers of the groups, plane by plane. */
  method PlanesOf(layer: Layer, groups: seq<seq<int>>) returns (ptrs: seq<int>, sizes: seq<nat>)
    requires Grouped(groups) && layer.Holds(Flatten(groups))
    ensures Buffers(layer, ptrs, sizes, layer.SlotsOf(Flatten(groups)))
    ensures |ptrs| == if layer.split then 2 * |groups| else |groups|
    ensures PlaneAt(layer, ptrs, sizes, 0, groups, 0, |groups|)
    ensures layer.split ==> PlaneAt(layer, ptrs, sizes, |groups|, groups, layer.blocks, |groups|)
  {
    ghost var runs: seq<Run>;
    ptrs, sizes, runs := AppendPlane(layer, groups, 0, [], [], []);
    assert Expand(runs) == Flatten(groups) by { assert Shift(Flatten(groups), 0) == Flatten(groups); }
    if layer.split {
      ptrs, sizes, runs := SecondPlane(layer, groups, ptrs, sizes, runs);
    }
    assert Buffers(layer, ptrs, sizes, layer.SlotsOf(Flatten(groups)));
  }

  /** The second plane goes after the first. */
  method SecondPlane(layer: Layer, groups: seq<seq<int>>, ptrs0: seq<int>, sizes0: seq<nat>, ghost runs0: seq<Run>)
    returns (ptrs: seq<int>, sizes: seq<nat>, ghost runs: seq<Run>)
    requires Grouped(groups) && layer.Holds(Flatten(groups)) && layer.split && |ptrs0| == |groups|
    requires Describes(layer, ptrs0, sizes0, runs0) && PlaneAt(layer, ptrs0, sizes0, 0, groups, 0, |groups|)
    ensures Describes(layer, ptrs, sizes, runs) && Expand(runs) == Expand(runs0) + Shift(Flatten(groups), layer.blocks)
    ensures |ptrs| == 2 * |groups| && PlaneAt(layer, ptrs, sizes, 0, groups, 0, |groups|)
    ensures PlaneAt(layer, ptrs, sizes, |groups|, groups, layer.blocks, |groups|)
  {
    ptrs, sizes, runs := AppendPlane(layer, groups, layer.blocks, ptrs0, sizes0, runs0);
    PlaneStays(layer, ptrs0, sizes0, ptrs, sizes, 0, groups, 0, |groups|);
  }

  /**
   From position `from` on there is a buffer for each of the first n groups: its first block's address,
   all its bytes.
   */
  ghost predicate PlaneAt(layer: Layer, ptrs: seq<int>, sizes: seq<nat>, from: nat, groups: seq<seq<int>>, plane: nat,
                          n: nat)
  {
    && n <= |groups| && from + n <= |ptrs| == |sizes|
    && forall g :: 0 <= g < n ==>
         && groups[g] != [] && ptrs[from + g] == layer.base + (plane + groups[g][0]) * layer.blockBytes
         && sizes[from + g] == layer.blockBytes * |groups[g]|
  }

  lemma PlaneGrows(layer: Layer, ptrs: seq<int>, sizes: seq<nat>, from: nat, groups: seq<seq<int>>, plane: nat, n: nat,
                   ptr: int, size: nat)
    requires PlaneAt(layer, ptrs, sizes, from, groups, plane, n) && n < |groups| && groups[n] != [] &&
             from + n == |ptrs|
    requires ptr == layer.base + (plane + groups[n][0]) * layer.blockBytes && size == layer.blockBytes * |groups[n]|
    ensures PlaneAt(layer, ptrs + [ptr], sizes + [size], from, groups, plane, n + 1)
  {
  }

  lemma PlaneStays(layer: Layer, ptrs: seq<int>, sizes: seq<nat>, ptrs': seq<int>, sizes': seq<nat>, from: nat,
                   groups: seq<seq<int>>, plane: nat, n: nat)
    requires PlaneAt(layer, ptrs, sizes, from, groups, plane, n) && ptrs <= ptrs' && sizes <= sizes' &&
             |ptrs'| == |sizes'|
    ensures PlaneAt(layer, ptrs', sizes', from, groups, plane, n)
  {
  }

  /** Beyond the runs of before, the runs are the slots of these groups. */
  ghost predicate Expanded(runs0: seq<Run>, runs: seq<Run>, groups: seq<seq<int>>, plane: nat) {
    Expand(runs) == Expand(runs0) + Shift(Flatten(groups), plane)
  }

  /** The buffers of one plane, whose first slot is `plane`. */
  method AppendPlane(layer: Layer, groups: seq<seq<int>>, plane: nat, ptrs0: seq<int>, sizes0: seq<nat>,
                     ghost runs0: seq<Run>)
    returns (ptrs: seq<int>, sizes: seq<nat>, ghost runs: seq<Run>)
    requires Grouped(groups) && layer.Holds(Flatten(groups)) && plane + layer.blocks <= layer.Slots()
    requires Describes(layer, ptrs0, sizes0, runs0)
    ensures Describes(layer, ptrs, sizes, runs) && Expand(runs) == Expand(runs0) + Shift(Flatten(groups), plane)
    ensures |ptrs| == |ptrs0| + |groups| && ptrs0 <= ptrs && sizes0 <= sizes
    ensures PlaneAt(layer, ptrs, sizes, |ptrs0|, groups, plane, |groups|)
  {
    ptrs, sizes, runs := ptrs0, sizes0, runs0;
    for i := 0 to |groups|
      invariant ptrs0 <= ptrs && sizes0 <= sizes
      invariant Appended(layer, groups, plane, |ptrs0|, runs0, ptrs, sizes, runs, i)
    {
      GroupHeld(layer, groups, i);
      var ptr, size := layer.Address(plane + groups[i][0]), layer.blockBytes * |groups[i]|;
      GroupAppended(layer, groups, plane, |ptrs0|, runs0, ptrs, sizes, runs, i);
      ptrs, sizes, runs := ptrs + [ptr], sizes + [size], runs + [Run(plane + groups[i][0], |groups[i]|)];
    }
    assert groups[..|groups|] == groups;
  }

  /** The buffers after the first n groups of a plane. */
  ghost predicate Appended(layer: Layer, groups: seq<seq<int>>, plane: nat, from: nat, runs0: seq<Run>, ptrs: seq<int>,
                           sizes: seq<nat>, runs: seq<Run>, n: nat)
  {
    && |ptrs| == from + n && PlaneAt(layer, ptrs, sizes, from, groups, plane, n)
    && Describes(layer, ptrs, sizes, runs) && Expanded(runs0, runs, groups[..n], plane)
  }

  lemma GroupAppended(layer: Layer, groups: seq<seq<int>>, plane: nat, from: nat, runs0: seq<Run>, ptrs: seq<int>,
                      sizes: seq<nat>, runs: seq<Run>, n: nat)
    requires Grouped(groups) && layer.Holds(Flatten(groups)) && plane + layer.blocks <= layer.Slots()
    requires n < |groups| && groups[n] != [] && groups[n][0] >= 0
    requires Appended(layer, groups, plane, from, runs0, ptrs, sizes, runs, n)
    ensures var ptr, size := layer.Address(plane + groups[n][0]), layer.blockBytes * |groups[n]|;
            Appended(layer, groups, plane, from, runs0, ptrs + [ptr], sizes + [size],
                     runs + [Run(plane + groups[n][0], |groups[n]|)], n + 1)
  {
    var group := groups[n];
    var ptr, size, run := layer.Address(plane + group[0]), layer.blockBytes * |group|, Run(plane + group[0], |group|);
    PlaneGrows(layer, ptrs, sizes, from, groups, plane, n, ptr, size);
    assert Describes(layer, ptrs + [ptr], sizes + [size], runs + [run]) by {
      GroupHeld(layer, groups, n);
      BufferAdded(layer, ptrs, sizes, runs, ptr, size, run);
    }
    assert Expanded(runs0, runs + [run], groups[..n + 1], plane) by {
      RunAdded(runs0, runs, groups[..n], group, plane);
      assert groups[..n + 1] == groups[..n] + [group];
    }
  }

  lemma BufferAdded(layer: Layer, ptrs: seq<int>, sizes: seq<nat>, runs: seq<Run>, ptr: int, size: nat, run: Run)
    requires Describes(layer, ptrs, sizes, runs) && Extent(layer, ptr, size, run)
    ensures Describes(layer, ptrs + [ptr], sizes + [size], runs + [run])
  {
  }

  lemma {:induction false} PartOfFlat(groups: seq<seq<int>>, i: nat, k: nat)
    requires i < |groups| && k < |groups[i]|
    ensures groups[i][k] in Flatten(groups)
  {
    if i < |groups| - 1 {
      PartOfFlat(groups[..|groups| - 1], i, k);
    } else {
      assert Flatten(groups)[|Flatten(groups)| - |groups[i]| + k] == groups[i][k];
    }
  }

  lemma GroupHeld(layer: Layer, groups: seq<seq<int>>, i: nat)
    requires i < |groups| && Grouped(groups) && layer.Holds(Flatten(groups))
    ensures groups[i] != [] && 0 <= groups[i][0] && groups[i][0] + |groups[i]| <= layer.blocks
  {
    PartOfFlat(groups, i, 0);
    PartOfFlat(groups, i, |groups[i]| - 1);
  }

  lemma RunAdded(runs0: seq<Run>, runs: seq<Run>, groups: seq<seq<int>>, group: seq<int>, plane: nat)
    requires IsRun(group) && group[0] >= 0
    requires Expanded(runs0, runs, groups, plane)
    ensures Expanded(runs0, runs + [Run(plane + group[0], |group|)], groups + [group], plane)
  {
    var r := Run(plane + group[0], |group|);
    var flat := Flatten(groups);
    ExpandGrows(runs, r);
    FlattenGrows(groups, group);
    ShiftConcat(flat, group, plane);
    ShiftedRun(group, plane);
    Assoc(Expand(runs0), Shift(flat, plane), Shift(group, plane));
  }

  lemma Assoc<T>(a: seq<T>, b: seq<T>, c: seq<T>)
    ensures a + b + c == a + (b + c)
  {
  }

  lemma ShiftedRun(group: seq<int>, delta: int)
    requires IsRun(group)
    ensures Shift(group, delta) == Range(group[0] + delta, |group|)
  {
  }

  lemma ExpandGrows(runs: seq<Run>, r: Run)
    ensures Expand(runs + [r]) == Expand(runs) + Range(r.first, r.count)
  {
    assert (runs + [r])[..|runs|] == runs;
  }

  lemma ShiftConcat(a: seq<int>, b: seq<int>, delta: int)
    ensures Shift(a + b, delta) == Shift(a, delta) + Shift(b, delta)
  {
  }

  // ----- the bytes of blocks -----

  /** The length of n blocks, as a sum. */
  function Span(n: nat, blockBytes: nat): nat {
    if n == 0 then 0 else Span(n - 1, blockBytes) + blockBytes
  }

  lemma {:induction false} SpanIsProduct(n: nat, blockBytes: nat)
    ensures Span(n, blockBytes) == n * blockBytes
  {
    if n > 0 {
      SpanIsProduct(n - 1, blockBytes);
      assert n * blockBytes == (n - 1) * blockBytes + blockBytes;
    }
  }

  lemma {:induction false} SpanAdds(m: nat, n: nat, blockBytes: nat)
    ensures Span(m + n, blockBytes) == Span(m, blockBytes) + Span(n, blockBytes)
  {
    if n > 0 { SpanAdds(m, n - 1, blockBytes); }
  }

  /** The first n blocks fit into a larger number of blocks. */
  lemma SpanFits(m: nat, n: nat, blockBytes: nat)
    requires m <= n
    ensures Span(m, blockBytes) <= Span(n, blockBytes)
  {
    SpanAdds(m, n - m, blockBytes);
  }

  /** The i-th of n blocks. */
  ghost function BlockOf(data: seq<Byte>, blockBytes: nat, n: nat, i: int): (b: seq<Byte>)
    requires |data| == Span(n, blockBytes) && 0 <= i < n
    ensures |b| == blockBytes
  {
    SpanFits(i + 1, n, blockBytes);
    data[Span(i, blockBytes)..Span(i + 1, blockBytes)]
  }

  lemma RunFits(blockBytes: nat, n: nat, first: nat, count: nat)
    requires first + count <= n
    ensures Span(first, blockBytes) + Span(count, blockBytes) <= Span(n, blockBytes)
  {
    SpanAdds(first, count, blockBytes);
    SpanFits(first + count, n, blockBytes);
  }

  /** Where a slot lies relative to a run of slots. */
  lemma Offsets(blockBytes: nat, n: nat, first: nat, count: nat, slot: nat)
    requires first + count <= n && slot < n
    ensures Span(first, blockBytes) + Span(count, blockBytes) <= Span(n, blockBytes)
    ensures Span(slot, blockBytes) <= Span(slot + 1, blockBytes) <= Span(n, blockBytes)
    ensures slot < first ==> Span(slot + 1, blockBytes) <= Span(first, blockBytes)
    ensures first + count <= slot ==> Span(first, blockBytes) + Span(count, blockBytes) <= Span(slot, blockBytes)
    ensures first <= slot < first + count ==>
              && Span(slot - first, blockBytes) <= Span(slot - first + 1, blockBytes) <= Span(count, blockBytes)
              && Span(first, blockBytes) + Span(slot - first, blockBytes) == Span(slot, blockBytes)
              && Span(first, blockBytes) + Span(slot - first + 1, blockBytes) == Span(slot + 1, blockBytes)
  {
    RunFits(blockBytes, n, first, count);
    SpanAdds(first, count, blockBytes);
    SpanFits(slot + 1, n, blockBytes);
    if slot < first {
      SpanFits(slot + 1, first, blockBytes);
    } else if slot < first + count {
      SpanAdds(first, slot - first, blockBytes);
      SpanFits(slot - first + 1, count, blockBytes);
    } else {
      SpanFits(first + count, slot, blockBytes);
    }
  }

  lemma ConcatSlice(a: seq<Byte>, b: seq<Byte>, lo: nat, hi: nat)
    requires lo <= hi
    ensures hi <= |a| ==> (a + b)[lo..hi] == a[lo..hi]
    ensures hi <= |b| ==> (a + b)[|a| + lo..|a| + hi] == b[lo..hi]
  {
  }

  lemma ConcatBlock(a: seq<Byte>, b: seq<Byte>, blockBytes: nat, m: nat, n: nat, i: nat)
    requires |a| == Span(m, blockBytes) && |b| == Span(n, blockBytes) && i < m + n
    ensures |a + b| == Span(m + n, blockBytes)
    ensures BlockOf(a + b, blockBytes, m + n, i) == if i < m then BlockOf(a, blockBytes, m, i)
            else BlockOf(b, blockBytes, n, i - m)
  {
    SpanAdds(m, n, blockBytes);
    Offsets(blockBytes, m + n, m, n, i);
    if i < m {
      ConcatSlice(a, b, Span(i, blockBytes), Span(i + 1, blockBytes));
    } else {
      ConcatSlice(a, b, Span(i - m, blockBytes), Span(i - m + 1, blockBytes));
    }
  }

  /** Consecutive blocks are one stretch of bytes. */
  lemma StretchBlock(data: seq<Byte>, blockBytes: nat, n: nat, first: nat, count: nat, j: nat)
    requires |data| == Span(n, blockBytes) && first + count <= n && j < count
    ensures Span(first, blockBytes) <= Span(first + count, blockBytes) <= |data|
    ensures var part := data[Span(first, blockBytes)..Span(first + count, blockBytes)];
            |part| == Span(count, blockBytes) &&
            BlockOf(part, blockBytes, count, j) == BlockOf(data, blockBytes, n, first + j)
  {
    SpanFits(first + count, n, blockBytes);
    SpanAdds(first, count, blockBytes);
    SpanAdds(first, j, blockBytes);
    SpanFits(j + 1, count, blockBytes);
  }

  lemma PatchBefore(data: seq<Byte>, at: nat, part: seq<Byte>, lo: nat, hi: nat)
    requires at + |part| <= |data| && lo <= hi <= at
    ensures Patch(data, at, part)[lo..hi] == data[lo..hi]
  {
  }

  lemma PatchWithin(data: seq<Byte>, at: nat, part: seq<Byte>, lo: nat, hi: nat)
    requires at + |part| <= |data| && lo <= hi <= |part|
    ensures Patch(data, at, part)[at + lo..at + hi] == part[lo..hi]
  {
  }

  lemma PatchAfter(data: seq<Byte>, at: nat, part: seq<Byte>, lo: nat, hi: nat)
    requires at + |part| <= |data| && at + |part| <= lo <= hi <= |data|
    ensures Patch(data, at, part)[lo..hi] == data[lo..hi]
  {
  }

  /** Writing consecutive blocks at once replaces these blocks. */
  lemma PatchedBlock(data: seq<Byte>, blockBytes: nat, n: nat, first: nat, count: nat, part: seq<Byte>, slot: nat)
    requires |data| == Span(n, blockBytes) && first + count <= n && |part| == Span(count, blockBytes)
    requires first <= slot < first + count
    ensures Span(first, blockBytes) + |part| <= |data|
    ensures BlockOf(Patch(data, Span(first, blockBytes), part), blockBytes, n, slot) ==
              BlockOf(part, blockBytes, count, slot - first)
  {
    Offsets(blockBytes, n, first, count, slot);
    PatchWithin(data, Span(first, blockBytes), part, Span(slot - first, blockBytes),
                Span(slot - first + 1, blockBytes));
  }

  /** It leaves all others alone. */
  lemma OtherBlock(data: seq<Byte>, blockBytes: nat, n: nat, first: nat, count: nat, part: seq<Byte>, slot: nat)
    requires |data| == Span(n, blockBytes) && first + count <= n && |part| == Span(count, blockBytes)
    requires slot < n && !(first <= slot < first + count)
    ensures Span(first, blockBytes) + |part| <= |data|
    ensures BlockOf(Patch(data, Span(first, blockBytes), part), blockBytes, n, slot) ==
              BlockOf(data, blockBytes, n, slot)
  {
    Offsets(blockBytes, n, first, count, slot);
    var at, lo, hi := Span(first, blockBytes), Span(slot, blockBytes), Span(slot + 1, blockBytes);
    if slot < first {
      PatchBefore(data, at, part, lo, hi);
    } else {
      PatchAfter(data, at, part, lo, hi);
    }
  }

  // ----- gathering -----

  /** The bytes of a layer: one block per slot. */
  ghost predicate Content(layer: Layer, data: seq<Byte>) {
    |data| == Span(layer.Slots(), layer.blockBytes)
  }

  ghost predicate Inside(layer: Layer, ptr: int, size: nat) {
    layer.base <= ptr && ptr + size <= layer.base + Span(layer.Slots(), layer.blockBytes)
  }

  ghost predicate AllInside(layer: Layer, ptrs: seq<int>, sizes: seq<nat>) {
    |ptrs| == |sizes| && forall i :: 0 <= i < |ptrs| ==> Inside(layer, ptrs[i], sizes[i])
  }

  /** The store reads the buffers one after the other. */
  ghost function Gather(layer: Layer, data: seq<Byte>, ptrs: seq<int>, sizes: seq<nat>): seq<Byte>
    requires Content(layer, data) && AllInside(layer, ptrs, sizes)
  {
    if ptrs == [] then [] else
      var n := |ptrs| - 1;
      var at := ptrs[n] - layer.base;
      Gather(layer, data, ptrs[..n], sizes[..n]) + data[at..at + sizes[n]]
  }

  ghost predicate Copy(layer: Layer, data: seq<Byte>, payload: seq<Byte>, n: nat, i: nat, slot: int)
    requires Content(layer, data) && |payload| == Span(n, layer.blockBytes) && i < n
  {
    0 <= slot < layer.Slots() &&
    BlockOf(payload, layer.blockBytes, n, i) == BlockOf(data, layer.blockBytes, layer.Slots(), slot)
  }

  /** The payload is the listed blocks, one after the other. */
  ghost predicate Blocks(layer: Layer, data: seq<Byte>, slots: seq<int>, payload: seq<Byte>) {
    && Content(layer, data) && |payload| == Span(|slots|, layer.blockBytes)
    && forall i :: 0 <= i < |slots| ==> Copy(layer, data, payload, |slots|, i, slots[i])
  }

  lemma RunCopied(layer: Layer, data: seq<Byte>, slots: seq<int>, payload: seq<Byte>, first: nat, count: nat,
                  part: seq<Byte>, i: nat)
    requires Blocks(layer, data, slots, payload) && first + count <= layer.Slots() && i < |slots| + count
    requires Span(first, layer.blockBytes) <= Span(first + count, layer.blockBytes) <= |data|
    requires part == data[Span(first, layer.blockBytes)..Span(first + count, layer.blockBytes)]
    ensures |part| == Span(count, layer.blockBytes) && |payload + part| == Span(|slots| + count, layer.blockBytes)
    ensures Copy(layer, data, payload + part, |slots| + count, i,
                 if i < |slots| then slots[i] else first + (i - |slots|))
  {
    var bb := layer.blockBytes;
    SpanAdds(first, count, bb);
    ConcatBlock(payload, part, bb, |slots|, count, i);
    if i < |slots| {
      assert Copy(layer, data, payload, |slots|, i, slots[i]);
    } else {
      StretchBlock(data, bb, layer.Slots(), first, count, i - |slots|);
    }
  }

  /** Adding the slots of a run adds one stretch of bytes. */
  lemma BlocksRun(layer: Layer, data: seq<Byte>, slots: seq<int>, payload: seq<Byte>, first: nat, count: nat)
    requires Blocks(layer, data, slots, payload) && first + count <= layer.Slots()
    ensures Span(first, layer.blockBytes) <= Span(first + count, layer.blockBytes) <= |data|
    ensures Blocks(layer, data, slots + Range(first, count),
                   payload + data[Span(first, layer.blockBytes)..Span(first + count, layer.blockBytes)])
  {
    var bb := layer.blockBytes;
    SpanFits(first + count, layer.Slots(), bb);
    SpanAdds(first, count, bb);
    SpanAdds(|slots|, count, bb);
    var part, longer := data[Span(first, bb)..Span(first + count, bb)], slots + Range(first, count);
    forall i | 0 <= i < |longer| ensures Copy(layer, data, payload + part, |longer|, i, longer[i]) {
      RunCopied(layer, data, slots, payload, first, count, part, i);
    }
  }

  /** Where the bytes of a buffer lie in the layer. */
  lemma ExtentInside(layer: Layer, ptr: int, size: nat, run: Run)
    requires Extent(layer, ptr, size, run)
    ensures Inside(layer, ptr, size) && ptr - layer.base == Span(run.first, layer.blockBytes)
    ensures size == Span(run.count, layer.blockBytes)
    ensures ptr - layer.base + size == Span(run.first + run.count, layer.blockBytes)
  {
    SpanIsProduct(run.first, layer.blockBytes);
    SpanIsProduct(run.count, layer.blockBytes);
    SpanAdds(run.first, run.count, layer.blockBytes);
    SpanFits(run.first + run.count, layer.Slots(), layer.blockBytes);
  }

  lemma DescribedInside(layer: Layer, ptrs: seq<int>, sizes: seq<nat>, runs: seq<Run>)
    requires Describes(layer, ptrs, sizes, runs)
    ensures AllInside(layer, ptrs, sizes)
  {
    forall i | 0 <= i < |ptrs| ensures Inside(layer, ptrs[i], sizes[i]) {
      ExtentInside(layer, ptrs[i], sizes[i], runs[i]);
    }
  }

  /** Gathering through the coalesced buffers is copying block by block. */
  lemma {:induction false} GatherIsBlocks(layer: Layer, data: seq<Byte>, ptrs: seq<int>, sizes: seq<nat>,
                                          runs: seq<Run>)
    requires Content(layer, data) && Describes(layer, ptrs, sizes, runs)
    ensures AllInside(layer, ptrs, sizes) && Blocks(layer, data, Expand(runs), Gather(layer, data, ptrs, sizes))
  {
    DescribedInside(layer, ptrs, sizes, runs);
    if runs != [] {
      var n := |runs| - 1;
      GatherIsBlocks(layer, data, ptrs[..n], sizes[..n], runs[..n]);
      ExtentInside(layer, ptrs[n], sizes[n], runs[n]);
      BlocksRun(layer, data, Expand(runs[..n]), Gather(layer, data, ptrs[..n], sizes[..n]), runs[n].first,
                runs[n].count);
      assert Expand(runs) == Expand(runs[..n]) + Range(runs[n].first, runs[n].count);
      assert Gather(layer, data, ptrs, sizes) == Gather(layer, data, ptrs[..n], sizes[..n]) +
          data[Span(runs[n].first, layer.blockBytes)..Span(runs[n].first + runs[n].count, layer.blockBytes)];
    }
  }

  // ----- scattering -----

  ghost function Total(sizes: seq<nat>): nat {
    if sizes == [] then 0 else Total(sizes[..|sizes| - 1]) + sizes[|sizes| - 1]
  }

  /** The store fills the buffers one after the other. */
  ghost function Scatter(layer: Layer, data: seq<Byte>, ptrs: seq<int>, sizes: seq<nat>,
                         payload: seq<Byte>): (r: seq<Byte>)
    requires Content(layer, data) && AllInside(layer, ptrs, sizes) && |payload| == Total(sizes)
    ensures |r| == |data|
  {
    if ptrs == [] then data else
      var n := |ptrs| - 1;
      var done := Total(sizes[..n]);
      Patch(Scatter(layer, data, ptrs[..n], sizes[..n], payload[..done]), ptrs[n] - layer.base, payload[done..])
  }

  ghost predicate Distinct(slots: seq<int>) {
    forall i, j :: 0 <= i < j < |slots| ==> slots[i] != slots[j]
  }

  ghost predicate Avoids(slots: seq<int>, first: nat, count: nat) {
    forall i :: 0 <= i < |slots| ==> !(first <= slots[i] < first + count)
  }

  /** Every slot of the list holds its block of the payload; every other slot is as it was. */
  ghost predicate Placed(layer: Layer, before: seq<Byte>, after: seq<Byte>, slots: seq<int>, payload: seq<Byte>) {
    && Content(layer, before) && Blocks(layer, after, slots, payload)
    && forall s :: 0 <= s < layer.Slots() && s !in slots ==>
         BlockOf(after, layer.blockBytes, layer.Slots(), s) == BlockOf(before, layer.blockBytes, layer.Slots(), s)
  }

  lemma RunPlaced(layer: Layer, after: seq<Byte>, slots: seq<int>, payload: seq<Byte>, first: nat, count: nat,
                  part: seq<Byte>, i: nat)
    requires Blocks(layer, after, slots, payload) && first + count <= layer.Slots() && i < |slots| + count
    requires |part| == Span(count, layer.blockBytes) && Avoids(slots, first, count)
    ensures Span(first, layer.blockBytes) + |part| <= |after| &&
            |payload + part| == Span(|slots| + count, layer.blockBytes)
    ensures Copy(layer, Patch(after, Span(first, layer.blockBytes), part), payload + part, |slots| + count, i,
                 if i < |slots| then slots[i] else first + (i - |slots|))
  {
    var bb, n := layer.blockBytes, layer.Slots();
    ConcatBlock(payload, part, bb, |slots|, count, i);
    if i < |slots| {
      assert Copy(layer, after, payload, |slots|, i, slots[i]);
      OtherBlock(after, bb, n, first, count, part, slots[i]);
    } else {
      PatchedBlock(after, bb, n, first, count, part, first + (i - |slots|));
    }
  }

  lemma PlacedRun(layer: Layer, before: seq<Byte>, after: seq<Byte>, slots: seq<int>, payload: seq<Byte>, first: nat,
                  count: nat, part: seq<Byte>)
    requires Placed(layer, before, after, slots, payload) && first + count <= layer.Slots()
    requires |part| == Span(count, layer.blockBytes) && Avoids(slots, first, count)
    ensures Span(first, layer.blockBytes) + |part| <= |after|
    ensures Placed(layer, before, Patch(after, Span(first, layer.blockBytes), part), slots + Range(first, count),
                   payload + part)
  {
    var bb, n := layer.blockBytes, layer.Slots();
    RunsPlaced(layer, after, slots, payload, first, count, part);
    var last := Patch(after, Span(first, bb), part);
    forall s | 0 <= s < n && s !in slots + Range(first, count)
      ensures BlockOf(last, bb, n, s) == BlockOf(before, bb, n, s) {
      OtherKept(layer, before, after, slots, payload, first, count, part, s);
    }
  }

  lemma RunsPlaced(layer: Layer, after: seq<Byte>, slots: seq<int>, payload: seq<Byte>, first: nat, count: nat,
                   part: seq<Byte>)
    requires Blocks(layer, after, slots, payload) && first + count <= layer.Slots()
    requires |part| == Span(count, layer.blockBytes) && Avoids(slots, first, count)
    ensures Span(first, layer.blockBytes) + |part| <= |after|
    ensures Blocks(layer, Patch(after, Span(first, layer.blockBytes), part), slots + Range(first, count),
                   payload + part)
  {
    var bb, longer, whole := layer.blockBytes, slots + Range(first, count), payload + part;
    RunFits(bb, layer.Slots(), first, count);
    assert |longer| == |slots| + count && |whole| == Span(|longer|, bb) by {
      SpanAdds(|slots|, count, bb);
    }
    var last := Patch(after, Span(first, bb), part);
    assert Content(layer, last);
    forall i | 0 <= i < |longer| ensures Copy(layer, last, whole, |longer|, i, longer[i]) {
      assert longer[i] == if i < |slots| then slots[i] else first + (i - |slots|);
      RunPlaced(layer, after, slots, payload, first, count, part, i);
    }
  }

  lemma OtherKept(layer: Layer, before: seq<Byte>, after: seq<Byte>, slots: seq<int>, payload: seq<Byte>, first: nat,
                  count: nat, part: seq<Byte>, s: nat)
    requires Placed(layer, before, after, slots, payload) && first + count <= layer.Slots() && s < layer.Slots()
    requires |part| == Span(count, layer.blockBytes) && s !in slots + Range(first, count)
    ensures Span(first, layer.blockBytes) + |part| <= |after|
    ensures BlockOf(Patch(after, Span(first, layer.blockBytes), part), layer.blockBytes, layer.Slots(), s) ==
            BlockOf(before, layer.blockBytes, layer.Slots(), s)
  {
    InRange(slots, first, count, s);
    OtherBlock(after, layer.blockBytes, layer.Slots(), first, count, part, s);
  }

  lemma InRange(slots: seq<int>, first: nat, count: nat, s: int)
    ensures s in slots + Range(first, count) <==> s in slots || first <= s < first + count
  {
    var longer := slots + Range(first, count);
    if first <= s < first + count { assert longer[|slots| + (s - first)] == s; }
  }

  lemma DistinctAvoids(slots: seq<int>, first: nat, count: nat)
    requires Distinct(slots + Range(first, count))
    ensures Distinct(slots) && Avoids(slots, first, count)
  {
    var r := Range(first, count);
    forall i, j | 0 <= i < j < |slots| ensures slots[i] != slots[j] {
      assert (slots + r)[i] != (slots + r)[j];
    }
    forall i | 0 <= i < |slots| ensures !(first <= slots[i] < first + count) {
      forall j | 0 <= j < |r| ensures r[j] != slots[i] {
        assert (slots + r)[i] != (slots + r)[|slots| + j];
      }
      InRange([], first, count, slots[i]);
      assert [] + r == r;
    }
  }

  /** Scattering into the buffers of distinct slots puts block i of the payload at slot i and touches nothing else. */
  lemma {:induction false} ScatterPlaces(layer: Layer, data: seq<Byte>, ptrs: seq<int>, sizes: seq<nat>, runs: seq<Run>,
                                         payload: seq<Byte>)
    requires Content(layer, data) && Describes(layer, ptrs, sizes, runs) && Distinct(Expand(runs)) &&
             |payload| == Total(sizes)
    ensures AllInside(layer, ptrs, sizes)
    ensures Placed(layer, data, Scatter(layer, data, ptrs, sizes, payload), Expand(runs), payload)
  {
    DescribedInside(layer, ptrs, sizes, runs);
    if runs != [] {
      var n := |runs| - 1;
      var done, slots := Total(sizes[..n]), Expand(runs[..n]);
      assert Distinct(slots) && Avoids(slots, runs[n].first, runs[n].count) by {
        assert Expand(runs) == slots + Range(runs[n].first, runs[n].count);
        DistinctAvoids(slots, runs[n].first, runs[n].count);
      }
      ScatterPlaces(layer, data, ptrs[..n], sizes[..n], runs[..n], payload[..done]);
      ExtentInside(layer, ptrs[n], sizes[n], runs[n]);
      var after := Scatter(layer, data, ptrs[..n], sizes[..n], payload[..done]);
      PlacedRun(layer, data, after, slots, payload[..done], runs[n].first, runs[n].count, payload[done..]);
      assert payload[..done] + payload[done..] == payload &&
             Expand(runs) == slots + Range(runs[n].first, runs[n].count);
      assert Scatter(layer, data, ptrs, sizes, payload) ==
               Patch(after, Span(runs[n].first, layer.blockBytes), payload[done..]);
    }
  }

  // ----- save and load -----

  lemma {:induction false} TotalIsSpan(layer: Layer, ptrs: seq<int>, sizes: seq<nat>, runs: seq<Run>)
    requires Describes(layer, ptrs, sizes, runs)
    ensures Total(sizes) == Span(|Expand(runs)|, layer.blockBytes)
  {
    if runs != [] {
      var n := |runs| - 1;
      TotalIsSpan(layer, ptrs[..n], sizes[..n], runs[..n]);
      ExtentInside(layer, ptrs[n], sizes[n], runs[n]);
      SpanAdds(|Expand(runs[..n])|, runs[n].count, layer.blockBytes);
    }
  }

  lemma SlotsDistinct(layer: Layer, ids: seq<int>)
    requires layer.Holds(ids) && Distinct(ids)
    ensures Distinct(layer.SlotsOf(ids))
  {
    var slots, n := layer.SlotsOf(ids), |ids|;
    forall i, j | 0 <= i < j < |slots| ensures slots[i] != slots[j] {
      assert slots[i] == (if i < n then ids[i] else ids[i - n] + layer.blocks);
      assert slots[j] == (if j < n then ids[j] else ids[j - n] + layer.blocks);
    }
  }

  /** Block b[i] of one layer is block a[i] of the other, in every plane. */
  ghost predicate Moved(from: Layer, data: seq<Byte>, a: seq<int>, to: Layer, after: seq<Byte>, b: seq<int>)
    requires Content(from, data) && Content(to, after) && from.Holds(a) && to.Holds(b) && |a| == |b|
  {
    forall i :: 0 <= i < |a| ==>
      && BlockOf(after, to.blockBytes, to.Slots(), b[i]) == BlockOf(data, from.blockBytes, from.Slots(), a[i])
      && (from.split && to.split ==>
            BlockOf(after, to.blockBytes, to.Slots(), to.blocks + b[i]) ==
            BlockOf(data, from.blockBytes, from.Slots(), from.blocks + a[i]))
  }

  /**
   Data saved from blocks a and loaded into distinct blocks b of a layer of the same shape puts block
   a[i] at b[i], however the two lists fall into runs, and leaves every other block alone.
   */
  lemma SaveLoad(from: Layer, data: seq<Byte>, a: seq<int>, ptrs: seq<int>, sizes: seq<nat>,
                 to: Layer, before: seq<Byte>, b: seq<int>, ptrs': seq<int>, sizes': seq<nat>)
    requires from.blockBytes == to.blockBytes && from.split == to.split && |a| == |b|
    requires from.Holds(a) && Content(from, data) && Buffers(from, ptrs, sizes, from.SlotsOf(a))
    requires to.Holds(b) && Content(to, before) && Buffers(to, ptrs', sizes', to.SlotsOf(b)) && Distinct(b)
    ensures AllInside(from, ptrs, sizes) && AllInside(to, ptrs', sizes') &&
            |Gather(from, data, ptrs, sizes)| == Total(sizes')
    ensures var after := Scatter(to, before, ptrs', sizes', Gather(from, data, ptrs, sizes));
            && Moved(from, data, a, to, after, b)
            && forall s :: 0 <= s < to.Slots() && s !in to.SlotsOf(b) ==>
                 BlockOf(after, to.blockBytes, to.Slots(), s) == BlockOf(before, to.blockBytes, to.Slots(), s)
  {
    var runs :| Describes(from, ptrs, sizes, runs) && Expand(runs) == from.SlotsOf(a);
    var runs' :| Describes(to, ptrs', sizes', runs') && Expand(runs') == to.SlotsOf(b);
    GatherIsBlocks(from, data, ptrs, sizes, runs);
    TotalIsSpan(to, ptrs', sizes', runs');
    SlotsDistinct(to, b);
    var payload := Gather(from, data, ptrs, sizes);
    DescribedInside(to, ptrs', sizes', runs');
    var after := Scatter(to, before, ptrs', sizes', payload);
    ScatterPlaces(to, before, ptrs', sizes', runs', payload);
    BothCopies(from, data, a, to, after, b, payload);
  }

  lemma BothCopies(from: Layer, data: seq<Byte>, a: seq<int>, to: Layer, after: seq<Byte>, b: seq<int>,
                   payload: seq<Byte>)
    requires from.blockBytes == to.blockBytes && from.split == to.split && |a| == |b| && from.Holds(a) && to.Holds(b)
    requires Blocks(from, data, from.SlotsOf(a), payload) && Blocks(to, after, to.SlotsOf(b), payload)
    ensures Moved(from, data, a, to, after, b)
  {
    var s, t := from.SlotsOf(a), to.SlotsOf(b);
    forall i | 0 <= i < |a|
      ensures BlockOf(after, to.blockBytes, to.Slots(), b[i]) == BlockOf(data, from.blockBytes, from.Slots(), a[i])
      ensures from.split ==>
                BlockOf(after, to.blockBytes, to.Slots(), to.blocks + b[i]) ==
                BlockOf(data, from.blockBytes, from.Slots(), from.blocks + a[i])
    {
      assert Copy(from, data, payload, |s|, i, s[i]) && Copy(to, after, payload, |t|, i, t[i]);
      if from.split {
        var j := |a| + i;
        assert Copy(from, data, payload, |s|, j, s[j]) && Copy(to, after, payload, |t|, j, t[j]);
      }
    }
  }

  /**
   What is saved: the listed blocks of the first plane in the order of the list and then, with split
   planes, those of the second.
   */
  lemma SavedOrder(layer: Layer, data: seq<Byte>, ids: seq<int>, ptrs: seq<int>, sizes: seq<nat>, i: nat)
    requires layer.Holds(ids) && Content(layer, data) && Buffers(layer, ptrs, sizes, layer.SlotsOf(ids)) && i < |ids|
    ensures AllInside(layer, ptrs, sizes)
    ensures var payload, n := Gather(layer, data, ptrs, sizes), if layer.split then 2 * |ids| else |ids|;
            && |payload| == Span(n, layer.blockBytes)
            && BlockOf(payload, layer.blockBytes, n, i) == BlockOf(data, layer.blockBytes, layer.Slots(), ids[i])
            && (layer.split ==> BlockOf(payload, layer.blockBytes, n, |ids| + i) ==
                                BlockOf(data, layer.blockBytes, layer.Slots(), layer.blocks + ids[i]))
  {
    var runs :| Describes(layer, ptrs, sizes, runs) && Expand(runs) == layer.SlotsOf(ids);
    GatherIsBlocks(layer, data, ptrs, sizes, runs);
    var payload, slots := Gather(layer, data, ptrs, sizes), layer.SlotsOf(ids);
    assert Copy(layer, data, payload, |slots|, i, slots[i]);
    if layer.split { assert Copy(layer, data, payload, |slots|, |ids| + i, slots[|ids| + i]); }
  }
}
