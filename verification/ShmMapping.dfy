/**
 Dummy-to-real address translation. A dummy client names memory by addresses of its own process;
 the real client maps the same shared memory elsewhere and translates, modulo 2^64.
 */
module ShmMapping {
  import opened Machine
  import opened Store

  /** One mapped shared-memory segment; `delta` is fixed when it is mapped. */
  datatype MappedShm = MappedShm(buffer: Word, size: Word, dummyBase: Word, delta: Word)

  /** A mapping as registration leaves it: it fits the address space on both sides. */
  ghost predicate Mapped(shm: MappedShm) {
    && shm.delta == SubW(shm.buffer, shm.dummyBase)
    && shm.buffer + shm.size < WORD_SPAN && shm.dummyBase + shm.size < WORD_SPAN
  }

  function MapShm(buffer: Word, size: Word, dummyBase: Word): MappedShm {
    MappedShm(buffer, size, dummyBase, SubW(buffer, dummyBase))
  }

  /** map_dummy_range_in_shm, with every addition wrapping like the machine's. */
  function MapRange(shm: MappedShm, dummy: Word, offset: Word, size: Word): Option<Word> {
    if dummy < shm.dummyBase then None
    else
      var baseOffset: Word := dummy - shm.dummyBase;
      if baseOffset > shm.size || offset > SubW(shm.size, baseOffset) then None
      else
        var writeOffset := AddW(baseOffset, offset);
        if writeOffset < baseOffset || writeOffset > shm.size || size > SubW(shm.size, writeOffset) then None
        else Some(AddW(AddW(dummy, shm.delta), offset))
  }

  /**
   The range is translated exactly when it lies in the dummy side of the mapping, and lands at the
   same place of the real side, inside the mapped buffer.
   */
  lemma MapRangeExact(shm: MappedShm, dummy: Word, offset: Word, size: Word)
    requires Mapped(shm)
    ensures MapRange(shm, dummy, offset, size).Some? <==>
            shm.dummyBase <= dummy && dummy + offset + size <= shm.dummyBase + shm.size
    ensures MapRange(shm, dummy, offset, size).Some? ==>
              var ptr := MapRange(shm, dummy, offset, size).value;
              ptr == shm.buffer + (dummy - shm.dummyBase) + offset &&
              shm.buffer <= ptr && ptr + size <= shm.buffer + shm.size
  {
  }

  ghost predicate AllMapped(shms: seq<MappedShm>) {
    forall i :: 0 <= i < |shms| ==> Mapped(shms[i])
  }

  ghost predicate DummyDisjoint(shms: seq<MappedShm>) {
    forall i, j :: 0 <= i < j < |shms| ==>
      shms[i].dummyBase + shms[i].size <= shms[j].dummyBase || shms[j].dummyBase + shms[j].size <= shms[i].dummyBase
  }

  /** The plain scan: the first mapping that takes the range. */
  function Scan(shms: seq<MappedShm>, dummy: Word, size: Word, from: nat): Option<Word>
    requires from <= |shms|
    decreases |shms| - from
  {
    if from == |shms| then None
    else if MapRange(shms[from], dummy, 0, size).Some? then MapRange(shms[from], dummy, 0, size)
    else Scan(shms, dummy, size, from + 1)
  }

  lemma {:induction false} ScanExact(shms: seq<MappedShm>, dummy: Word, size: Word, from: nat)
    requires from <= |shms|
    ensures Scan(shms, dummy, size, from).None? <==>
            forall i :: from <= i < |shms| ==> MapRange(shms[i], dummy, 0, size).None?
    ensures Scan(shms, dummy, size, from).Some? ==>
            exists i :: from <= i < |shms| && MapRange(shms[i], dummy, 0, size) == Scan(shms, dummy, size, from)
    decreases |shms| - from
  {
    if from < |shms| { ScanExact(shms, dummy, size, from + 1); }
  }

  /** In disjoint mappings a non-empty range is taken by one mapping at most. */
  lemma OneMappingTakes(shms: seq<MappedShm>, dummy: Word, size: Word, i: nat, j: nat)
    requires AllMapped(shms) && DummyDisjoint(shms) && size > 0
    requires i < |shms| && MapRange(shms[i], dummy, 0, size).Some?
    requires j < |shms| && MapRange(shms[j], dummy, 0, size).Some?
    ensures i == j
  {
    MapRangeExact(shms[i], dummy, 0, size);
    MapRangeExact(shms[j], dummy, 0, size);
  }

  lemma AnyHitIsScan(shms: seq<MappedShm>, dummy: Word, size: Word, i: nat)
    requires AllMapped(shms) && DummyDisjoint(shms) && size > 0
    requires i < |shms| && MapRange(shms[i], dummy, 0, size).Some?
    ensures Scan(shms, dummy, size, 0) == MapRange(shms[i], dummy, 0, size)
  {
    ScanExact(shms, dummy, size, 0);
    var j :| 0 <= j < |shms| && MapRange(shms[j], dummy, 0, size) == Scan(shms, dummy, size, 0);
    OneMappingTakes(shms, dummy, size, i, j);
  }

  predicate Takes(shm: MappedShm, dummy: Word, size: Word) {
    MapRange(shm, dummy, 0, size).Some?
  }

  /** The first mapping that takes the range. */
  function First(shms: seq<MappedShm>, dummy: Word, size: Word, from: nat): (f: Option<nat>)
    requires from <= |shms|
    ensures f.Some? ==> from <= f.value < |shms| && Takes(shms[f.value], dummy, size)
    ensures forall k :: from <= k < (if f.Some? then f.value else |shms|) ==> !Takes(shms[k], dummy, size)
    ensures Scan(shms, dummy, size, from) == if f.Some? then MapRange(shms[f.value], dummy, 0, size) else None
    decreases |shms| - from
  {
    if from == |shms| then None else if Takes(shms[from], dummy, size) then Some(from)
        else First(shms, dummy, size, from + 1)
  }

  /** The mapping that serves a range: the one hit last if it takes the range, else the first that does. */
  function Taker(shms: seq<MappedShm>, dummy: Word, size: Word, last: Option<nat>): (t: Option<nat>)
    requires last.Some? ==> last.value < |shms|
    ensures t.Some? ==> t.value < |shms| && Takes(shms[t.value], dummy, size)
    ensures t.Some? <==> Scan(shms, dummy, size, 0).Some?
  {
    if last.Some? && Takes(shms[last.value], dummy, size) then
      ScanExact(shms, dummy, size, 0);
      last
    else First(shms, dummy, size, 0)
  }

  /** One buffer: first the mapping that was hit last, then all mappings in order. */
  method MapBuffer(shms: seq<MappedShm>, dummy: Word, size: Word, last: Option<nat>)
    returns (ptr: Option<Word>, hit: Option<nat>)
    requires last.Some? ==> last.value < |shms|
    ensures var t := Taker(shms, dummy, size, last);
            && ptr == (if t.Some? then MapRange(shms[t.value], dummy, 0, size) else None)
            && hit == if t.Some? then t else last
    ensures ptr.None? <==> Scan(shms, dummy, size, 0).None?
  {
    hit := last;
    if last.Some? {
      ptr := MapRange(shms[last.value], dummy, 0, size);
      if ptr.Some? {
        return;
      }
    }
    for i := 0 to |shms|
      invariant forall k :: 0 <= k < i ==> !Takes(shms[k], dummy, size)
    {
      ptr := MapRange(shms[i], dummy, 0, size);
      if ptr.Some? {
        hit := Some(i);
        return;
      }
    }
    ptr := None;
  }

  ghost predicate InOneMapping(shms: seq<MappedShm>, dummy: Word, size: Word, ptr: Word) {
    exists i :: 0 <= i < |shms| && MapRange(shms[i], dummy, 0, size) == Some(ptr)
  }

  /** The mapping hit last after the first n buffers. */
  function LastHit(shms: seq<MappedShm>, addrs: seq<Word>, sizes: seq<Word>, n: nat): (last: Option<nat>)
    requires n <= |addrs| == |sizes|
    ensures last.Some? ==> last.value < |shms|
  {
    if n == 0 then None else
      var before := LastHit(shms, addrs, sizes, n - 1);
      var t := Taker(shms, addrs[n - 1], sizes[n - 1], before);
      if t.Some? then t else before
  }

  /** What the walk over the list makes of buffer k. */
  function Walked(shms: seq<MappedShm>, addrs: seq<Word>, sizes: seq<Word>, k: nat): Option<Word>
    requires k < |addrs| == |sizes|
  {
    var t := Taker(shms, addrs[k], sizes[k], LastHit(shms, addrs, sizes, k));
    if t.Some? then MapRange(shms[t.value], addrs[k], 0, sizes[k]) else None
  }

  /** The pointers so far are the walk's. */
  ghost predicate WalkedTo(shms: seq<MappedShm>, addrs: seq<Word>, sizes: seq<Word>, out: seq<Word>) {
    |out| <= |addrs| == |sizes| && forall k :: 0 <= k < |out| ==> Walked(shms, addrs, sizes, k) == Some(out[k])
  }

  /** Translates a list of buffers; each pointer is the walk's, a translation by one of the mappings. */
  method MapAddrs(shms: seq<MappedShm>, addrs: seq<Word>, sizes: seq<Word>)
    returns (r: Result<seq<Word>, ErrorCode>)
    ensures r.Ok? <==> |addrs| == |sizes| && forall i :: 0 <= i < |addrs| ==> Scan(shms, addrs[i], sizes[i], 0).Some?
    ensures r.Err? ==> r.error == InvalidParams
    ensures r.Ok? ==> |r.value| == |addrs| && WalkedTo(shms, addrs, sizes, r.value)
    ensures r.Ok? ==> forall i :: 0 <= i < |addrs| ==> InOneMapping(shms, addrs[i], sizes[i], r.value[i])
  {
    if |addrs| != |sizes| {
      return Err(InvalidParams);
    }
    var out: seq<Word> := [];
    var last: Option<nat> := None;
    for i := 0 to |addrs|
      invariant |out| == i && last == LastHit(shms, addrs, sizes, i) && WalkedTo(shms, addrs, sizes, out)
    {
      var ptr;
      ptr, last := MapBuffer(shms, addrs[i], sizes[i], last);
      if ptr.None? {
        return Err(InvalidParams);
      }
      WalkGrows(shms, addrs, sizes, out, ptr.value);
      out := out + [ptr.value];
    }
    WalkLands(shms, addrs, sizes, out);
    return Ok(out);
  }

  lemma WalkGrows(shms: seq<MappedShm>, addrs: seq<Word>, sizes: seq<Word>, out: seq<Word>, ptr: Word)
    requires WalkedTo(shms, addrs, sizes, out) && |out| < |addrs| && Walked(shms, addrs, sizes, |out|) == Some(ptr)
    ensures WalkedTo(shms, addrs, sizes, out + [ptr])
  {
  }

  lemma WalkLands(shms: seq<MappedShm>, addrs: seq<Word>, sizes: seq<Word>, out: seq<Word>)
    requires WalkedTo(shms, addrs, sizes, out)
    ensures forall k :: 0 <= k < |out| ==>
              Scan(shms, addrs[k], sizes[k], 0).Some? && InOneMapping(shms, addrs[k], sizes[k], out[k])
  {
    forall k | 0 <= k < |out|
      ensures Scan(shms, addrs[k], sizes[k], 0).Some? && InOneMapping(shms, addrs[k], sizes[k], out[k]) {
      assert Walked(shms, addrs, sizes, k) == Some(out[k]);
      var t := Taker(shms, addrs[k], sizes[k], LastHit(shms, addrs, sizes, k));
      assert MapRange(shms[t.value], addrs[k], 0, sizes[k]) == Some(out[k]);
    }
  }

  /** Two mappings meet at a dummy address and their buffers do not meet in the same way. */
  ghost predicate Torn(left: MappedShm, right: MappedShm, dummy: Word) {
    left.dummyBase + left.size == dummy == right.dummyBase && left.buffer + left.size != right.buffer
  }

  /** A mapping that takes the range translates it like the scan, except for an empty range on a torn border. */
  lemma HitDiffersIff(shms: seq<MappedShm>, dummy: Word, size: Word, i: nat)
    requires AllMapped(shms) && DummyDisjoint(shms) && i < |shms| && Takes(shms[i], dummy, size)
    ensures First(shms, dummy, size, 0).Some?
    ensures var f := First(shms, dummy, size, 0).value;
            MapRange(shms[i], dummy, 0, size) != Scan(shms, dummy, size, 0) <==>
              size == 0 && f < i && (Torn(shms[f], shms[i], dummy) || Torn(shms[i], shms[f], dummy))
  {
    var f := First(shms, dummy, size, 0).value;
    MapRangeExact(shms[i], dummy, 0, size);
    MapRangeExact(shms[f], dummy, 0, size);
    if size > 0 { OneMappingTakes(shms, dummy, size, i, f); }
  }

  /**
   Over any list of buffers the walk with its shortcut differs from the plain scan at buffer k exactly
   when the buffer is empty, the mapping hit last takes it, and the first mapping that takes it lies on
   the other side of a torn border.
   */
  lemma WalkDiffersIff(shms: seq<MappedShm>, addrs: seq<Word>, sizes: seq<Word>, k: nat)
    requires AllMapped(shms) && DummyDisjoint(shms) && k < |addrs| == |sizes|
    ensures Walked(shms, addrs, sizes, k) != Scan(shms, addrs[k], sizes[k], 0) <==>
            && sizes[k] == 0
            && var last, f := LastHit(shms, addrs, sizes, k), First(shms, addrs[k], 0, 0);
               && last.Some? && Takes(shms[last.value], addrs[k], 0) && f.Some? && f.value < last.value
               && (Torn(shms[f.value], shms[last.value], addrs[k]) || Torn(shms[last.value], shms[f.value], addrs[k]))
  {
    var last := LastHit(shms, addrs, sizes, k);
    if last.Some? && Takes(shms[last.value], addrs[k], sizes[k]) {
      HitDiffersIff(shms, addrs[k], sizes[k], last.value);
    }
  }

  /** For non-empty buffers the shortcut therefore never shows. */
  lemma WalkIsScan(shms: seq<MappedShm>, addrs: seq<Word>, sizes: seq<Word>, k: nat)
    requires AllMapped(shms) && DummyDisjoint(shms) && k < |addrs| == |sizes| && sizes[k] > 0
    ensures Walked(shms, addrs, sizes, k) == Scan(shms, addrs[k], sizes[k], 0)
  {
    WalkDiffersIff(shms, addrs, sizes, k);
  }

  /** A buffer inside `a`, then an empty one on the border: the walk stays in `a`, the scan goes to `b`. */
  lemma EmptyBufferExample()
    ensures var a, b := MapShm(0x10000, 0x100, 0x1000), MapShm(0x20000, 0x100, 0x1100);
            var addrs, sizes := [0x1000, 0x1100], [0x10, 0];
            && AllMapped([b, a]) && DummyDisjoint([b, a])
            && Walked([b, a], addrs, sizes, 0) == Scan([b, a], 0x1000, 0x10, 0) == Some(0x10000)
            && Walked([b, a], addrs, sizes, 1) == Some(0x10100) && Scan([b, a], 0x1100, 0, 0) == Some(0x20000)
  {
    var a, b := MapShm(0x10000, 0x100, 0x1000), MapShm(0x20000, 0x100, 0x1100);
    var addrs, sizes := [0x1000, 0x1100], [0x10, 0];
    assert First([b, a], 0x1000, 0x10, 0) == Some(1);
    assert LastHit([b, a], addrs, sizes, 0) == None;
    assert LastHit([b, a], addrs, sizes, 1) == Some(1);
  }

  // ----- the way back -----

  predicate InBuffer(shm: MappedShm, ptr: Word) {
    shm.buffer <= ptr < shm.buffer + shm.size
  }

  /** The dummy address of a real one: that of the first mapping whose buffer holds it. */
  function DummyOf(shms: seq<MappedShm>, ptr: Word, from: nat): Option<Word>
    requires AllMapped(shms) && from <= |shms|
    decreases |shms| - from
  {
    if from == |shms| then None
    else if InBuffer(shms[from], ptr) then Some(shms[from].dummyBase + (ptr - shms[from].buffer))
    else DummyOf(shms, ptr, from + 1)
  }

  /** The real-to-dummy step of acquire_buffer_dummy, with its arithmetic modulo 2^64. */
  method ToDummy(shms: seq<MappedShm>, ptr: Word) returns (r: Result<Word, ErrorCode>)
    requires AllMapped(shms)
    ensures r == if DummyOf(shms, ptr, 0).Some? then Ok(DummyOf(shms, ptr, 0).value) else Err(InternalError)
    ensures r.Err? <==> forall i :: 0 <= i < |shms| ==> !(shms[i].buffer <= ptr < shms[i].buffer + shms[i].size)
    ensures r.Ok? ==>
              exists i :: 0 <= i < |shms| && shms[i].buffer <= ptr < shms[i].buffer + shms[i].size &&
                          r.value == shms[i].dummyBase + (ptr - shms[i].buffer)
  {
    for i := 0 to |shms|
      invariant forall k :: 0 <= k < i ==> !InBuffer(shms[k], ptr)
      invariant DummyOf(shms, ptr, 0) == DummyOf(shms, ptr, i)
    {
      var end := AddW(shms[i].buffer, shms[i].size);
      if ptr >= shms[i].buffer && ptr < end {
        return Ok(SubW(ptr, shms[i].delta));
      }
    }
    return Err(InternalError);
  }

  ghost predicate BuffersDisjoint(shms: seq<MappedShm>) {
    forall i, j :: 0 <= i < j < |shms| ==>
      shms[i].buffer + shms[i].size <= shms[j].buffer || shms[j].buffer + shms[j].size <= shms[i].buffer
  }

  lemma {:induction false} DummyOfOwner(shms: seq<MappedShm>, ptr: Word, from: nat, i: nat)
    requires AllMapped(shms) && BuffersDisjoint(shms) && from <= i < |shms| && InBuffer(shms[i], ptr)
    ensures DummyOf(shms, ptr, from) == Some(shms[i].dummyBase + (ptr - shms[i].buffer))
    decreases i - from
  {
    if from < i { DummyOfOwner(shms, ptr, from + 1, i); }
  }

  /** The two directions invert each other: a non-empty range of a mapping translates there and back. */
  lemma RoundTrip(shms: seq<MappedShm>, i: nat, ptr: Word, n: Word)
    requires AllMapped(shms) && DummyDisjoint(shms) && BuffersDisjoint(shms) && i < |shms| && n > 0
    requires shms[i].buffer <= ptr && ptr + n <= shms[i].buffer + shms[i].size
    ensures DummyOf(shms, ptr, 0).Some? && Scan(shms, DummyOf(shms, ptr, 0).value, n, 0) == Some(ptr)
  {
    var dummy: Word := shms[i].dummyBase + (ptr - shms[i].buffer);
    DummyOfOwner(shms, ptr, 0, i);
    MapRangeExact(shms[i], dummy, 0, n);
    AnyHitIsScan(shms, dummy, n, i);
  }

  lemma BackAgain(shms: seq<MappedShm>, dummy: Word, n: Word)
    requires AllMapped(shms) && BuffersDisjoint(shms) && n > 0 && Scan(shms, dummy, n, 0).Some?
    ensures DummyOf(shms, Scan(shms, dummy, n, 0).value, 0) == Some(dummy)
  {
    var i := First(shms, dummy, n, 0).value;
    MapRangeExact(shms[i], dummy, 0, n);
    DummyOfOwner(shms, MapRange(shms[i], dummy, 0, n).value, 0, i);
  }
}
