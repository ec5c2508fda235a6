/**
 What the loops of mounting and unmounting compute: how a total is cut into chunks, which chunks are
 accepted, what is left of a rollback, and which ids of an unmount list go.
 */
module SegmentChunks {
  import opened Arithmetic
  import opened Machine
  import opened Store
  import opened SegmentSpec

  /** What foreign code answers while one chunk is mounted. */
  datatype ChunkReply = ChunkReply(memory: Option<Word>, registered: bool, master: Option<ErrorCode>, id: Id)

  /** Rounding down to a multiple. */
  function RoundDown(x: Word, m: Word): (r: Word)
    requires m > 0
    ensures r <= x < r + m && r % m == 0
  {
    MultipleIsZero(x / m, m);
    (x / m) * m
  }

  // ----- cutting -----

  /** What is left of the total when chunk i is due. */
  function Remaining(total: Word, cap: Word, i: nat): (r: Word)
    ensures r <= total
  {
    if i == 0 then total else
      var r := Remaining(total, cap, i - 1);
      if r < cap then 0 else r - cap
  }

  /** Chunk i is due as long as i whole chunks do not make up the total. */
  lemma {:induction false} RemainingIs(total: Word, cap: Word, i: nat)
    ensures Remaining(total, cap, i) as int == if i * cap <= total then total - i * cap else 0
  {
    if i > 0 {
      RemainingIs(total, cap, i - 1);
      assert (i - 1) * cap + cap == i * cap;
    }
  }

  function ChunkSize(total: Word, cap: Word, i: nat): Word {
    if Remaining(total, cap, i) < cap then Remaining(total, cap, i) else cap
  }

  lemma {:induction false} RemainingShrinks(total: Word, cap: Word, i: nat, n: nat)
    requires i <= n
    ensures Remaining(total, cap, n) <= Remaining(total, cap, i)
    decreases n
  {
    if i < n { RemainingShrinks(total, cap, i, n - 1); }
  }

  /** Where chunk i starts. */
  function OffsetOf(offset: Word, total: Word, cap: Word, i: nat): int {
    offset as int + total as int - Remaining(total, cap, i) as int
  }

  /** What was cut off before chunk i is a multiple of whatever the cap is a multiple of. */
  lemma {:induction false} CutAligned(total: Word, cap: Word, m: Word, i: nat)
    requires m > 0 && cap % m == 0 && Remaining(total, cap, i) > 0
    ensures (total - Remaining(total, cap, i)) % m == 0
  {
    if i > 0 {
      CutAligned(total, cap, m, i - 1);
      ModAdd(total - Remaining(total, cap, i - 1), cap, m);
    }
  }

  /** The chunks cut so far and the file offsets they are mapped at. */
  ghost predicate Cut(total: Word, cap: Word, offset: Word, sizes: seq<Word>, offsets: seq<Word>) {
    && |sizes| == |offsets|
    && forall i :: 0 <= i < |sizes| ==>
         && Remaining(total, cap, i) > 0 && sizes[i] == ChunkSize(total, cap, i)
         && offsets[i] == OffsetOf(offset, total, cap, i)
  }

  ghost predicate Abuts(offsets: seq<Word>, sizes: seq<Word>, i: nat, end: int)
    requires i < |offsets| == |sizes|
  {
    offsets[i] as int + sizes[i] as int == if i + 1 < |offsets| then offsets[i + 1] as int else end
  }

  /** Chunks of a file range: non-empty, no larger than a memory region may be, page-aligned, end to end. */
  ghost predicate Tiles(offsets: seq<Word>, sizes: seq<Word>, offset: Word, size: Word, page: Word, maxMr: Word)
    requires page > 0
  {
    && |offsets| == |sizes| && (size == 0 <==> sizes == []) && (sizes != [] ==> offsets[0] == offset)
    && forall i :: 0 <= i < |sizes| ==> TileAt(offsets, sizes, i, offset, size, page, maxMr)
  }

  ghost predicate TileAt(offsets: seq<Word>, sizes: seq<Word>, i: nat, offset: Word, size: Word, page: Word,
                         maxMr: Word)
    requires page > 0 && i < |offsets| == |sizes|
  {
    0 < sizes[i] <= maxMr && offsets[i] % page == 0 && Abuts(offsets, sizes, i, offset + size)
  }

  lemma CutTiles(sizes: seq<Word>, offsets: seq<Word>, cap: Word, offset: Word, size: Word, page: Word, maxMr: Word)
    requires page > 0 && cap > 0 && cap % page == 0 && cap <= maxMr && offset % page == 0
    requires Cut(size, cap, offset, sizes, offsets) && Remaining(size, cap, |sizes|) == 0
    ensures Tiles(offsets, sizes, offset, size, page, maxMr)
  {
    forall i | 0 <= i < |sizes| ensures TileAt(offsets, sizes, i, offset, size, page, maxMr) {
      ChunkTiled(sizes, offsets, cap, offset, size, page, maxMr, i);
    }
    assert Remaining(size, cap, 0) == size;
  }

  lemma ChunkTiled(sizes: seq<Word>, offsets: seq<Word>, cap: Word, offset: Word, size: Word, page: Word, maxMr: Word,
                   i: nat)
    requires page > 0 && cap > 0 && cap % page == 0 && cap <= maxMr && offset % page == 0
    requires Cut(size, cap, offset, sizes, offsets) && Remaining(size, cap, |sizes|) == 0 && i < |sizes|
    ensures TileAt(offsets, sizes, i, offset, size, page, maxMr)
  {
    StartAligned(size, cap, offset, page, i);
    CutAbuts(sizes, offsets, cap, offset, size, i);
  }

  lemma StartAligned(total: Word, cap: Word, offset: Word, page: Word, i: nat)
    requires page > 0 && cap % page == 0 && offset % page == 0 && Remaining(total, cap, i) > 0
    ensures OffsetOf(offset, total, cap, i) % page == 0
  {
    CutAligned(total, cap, page, i);
    ModAdd(offset, total - Remaining(total, cap, i), page);
  }

  lemma CutAbuts(sizes: seq<Word>, offsets: seq<Word>, cap: Word, offset: Word, size: Word, i: nat)
    requires cap > 0 && Cut(size, cap, offset, sizes, offsets) && Remaining(size, cap, |sizes|) == 0 && i < |sizes|
    ensures Abuts(offsets, sizes, i, offset + size)
  {
    var n := i + 1;
    assert Remaining(size, cap, n) == Remaining(size, cap, i) - ChunkSize(size, cap, i);
  }

  function SumTo(sizes: seq<Word>, n: nat): nat
    requires n <= |sizes|
  {
    if n == 0 then 0 else SumTo(sizes, n - 1) + sizes[n - 1]
  }

  lemma {:induction false} CutSum(total: Word, cap: Word, offset: Word, sizes: seq<Word>, offsets: seq<Word>, n: nat)
    requires Cut(total, cap, offset, sizes, offsets) && n <= |sizes|
    ensures SumTo(sizes, n) == total - Remaining(total, cap, n)
  {
    if n > 0 { CutSum(total, cap, offset, sizes, offsets, n - 1); }
  }

  /** Chunks of an allocation are whole slabs and add up to the total. */
  ghost predicate Slabs(sizes: seq<Word>, total: Word, slab: Word, maxMr: Word)
    requires slab > 0
  {
    && SumTo(sizes, |sizes|) == total
    && forall i :: 0 <= i < |sizes| ==> 0 < sizes[i] <= maxMr && sizes[i] % slab == 0
  }

  lemma CutSlabs(sizes: seq<Word>, offsets: seq<Word>, cap: Word, total: Word, slab: Word, maxMr: Word)
    requires slab > 0 && cap > 0 && cap % slab == 0 && cap <= maxMr && total % slab == 0
    requires Cut(total, cap, 0, sizes, offsets) && Remaining(total, cap, |sizes|) == 0
    ensures Slabs(sizes, total, slab, maxMr)
  {
    CutSum(total, cap, 0, sizes, offsets, |sizes|);
    forall i | 0 <= i < |sizes| ensures sizes[i] % slab == 0 {
      CutAligned(total, cap, slab, i);
      RestIsSlabs(total, Remaining(total, cap, i), slab);
    }
  }

  lemma RestIsSlabs(total: int, rest: int, slab: int)
    requires slab > 0 && total % slab == 0 && (total - rest) % slab == 0
    ensures rest % slab == 0
  {
    ModAdd(total, total - rest, slab);
  }

  // ----- accepting -----

  function BaseOf(r: ChunkReply): Word {
    if r.memory.Some? then r.memory.value else 0
  }

  /** There is memory for the chunk and its end is an address. */
  predicate Available(r: ChunkReply, size: Word) {
    r.memory.Some? && r.memory.value + size < WORD_SPAN
  }

  /** The chunk gets memory and is mounted, next to these segments. */
  ghost predicate Accepts(m: map<Id, Segment>, r: ChunkReply, size: Word, maxMr: Word) {
    && Available(r, size) && BaseOf(r) != 0 && size != 0 && size <= maxMr && r.registered && r.master.None?
    && forall id <- m :: !Collide(m[id], BaseOf(r), size)
  }

  /** The map after the first n chunks. */
  function MountedAfter(m: map<Id, Segment>, total: Word, cap: Word, replies: nat -> ChunkReply,
                        n: nat): map<Id, Segment> {
    if n == 0 then m else
      var r := replies(n - 1);
      MountedAfter(m, total, cap, replies, n - 1)[r.id := Segment(BaseOf(r), ChunkSize(total, cap, n - 1))]
  }

  /** Chunk i is accepted next to the segments and the chunks before it. */
  ghost predicate ChunkAccepted(m: map<Id, Segment>, total: Word, cap: Word, maxMr: Word, replies: nat -> ChunkReply,
                                i: nat) {
    Accepts(MountedAfter(m, total, cap, replies, i), replies(i), ChunkSize(total, cap, i), maxMr)
  }

  ghost predicate AcceptedUpTo(m: map<Id, Segment>, total: Word, cap: Word, maxMr: Word, replies: nat -> ChunkReply,
                               n: nat) {
    forall i :: 0 <= i < n ==> ChunkAccepted(m, total, cap, maxMr, replies, i)
  }

  /** Every chunk the total needs is accepted in its turn. */
  ghost predicate AllAccepted(m: map<Id, Segment>, total: Word, cap: Word, maxMr: Word, replies: nat -> ChunkReply) {
    forall i: nat :: Remaining(total, cap, i) > 0 ==> ChunkAccepted(m, total, cap, maxMr, replies, i)
  }

  /** The first n chunks are accepted and then either nothing is left or the next one is refused. */
  ghost predicate Stops(m: map<Id, Segment>, total: Word, cap: Word, maxMr: Word, replies: nat -> ChunkReply, n: nat) {
    && AcceptedUpTo(m, total, cap, maxMr, replies, n)
    && (Remaining(total, cap, n) > 0 ==> !ChunkAccepted(m, total, cap, maxMr, replies, n))
  }

  lemma StopsAtEndIff(m: map<Id, Segment>, total: Word, cap: Word, maxMr: Word, replies: nat -> ChunkReply, n: nat)
    requires Stops(m, total, cap, maxMr, replies, n)
    ensures Remaining(total, cap, n) == 0 <==> AllAccepted(m, total, cap, maxMr, replies)
  {
    if Remaining(total, cap, n) == 0 {
      forall i: nat | Remaining(total, cap, i) > 0 ensures ChunkAccepted(m, total, cap, maxMr, replies, i) {
        if n <= i { RemainingShrinks(total, cap, n, i); }
      }
    }
  }

  /** UUIDs are fresh: none is in use, none comes twice. */
  ghost predicate FreshIds(replies: nat -> ChunkReply, used: set<Id>) {
    && (forall k: nat :: replies(k).id !in used)
    && (forall k: nat, l: nat :: replies(k).id == replies(l).id ==> k == l)
  }

  ghost predicate IdsOf(ids: seq<Id>, replies: nat -> ChunkReply) {
    forall i :: 0 <= i < |ids| ==> ids[i] == replies(i).id
  }

  /** How far a mount loop has come. */
  ghost predicate Loop(m: map<Id, Segment>, now: map<Id, Segment>, total: Word, cap: Word, offset: Word, maxMr: Word,
                       replies: nat -> ChunkReply, ids: seq<Id>, sizes: seq<Word>, offsets: seq<Word>)
  {
    && |ids| == |sizes| && Cut(total, cap, offset, sizes, offsets) && IdsOf(ids, replies)
    && now == MountedAfter(m, total, cap, replies, |ids|) && AcceptedUpTo(m, total, cap, maxMr, replies, |ids|)
  }

  lemma LoopGrows(m: map<Id, Segment>, now: map<Id, Segment>, total: Word, cap: Word, offset: Word, maxMr: Word,
                  replies: nat -> ChunkReply, ids: seq<Id>, sizes: seq<Word>, offsets: seq<Word>, current: Word)
    requires Loop(m, now, total, cap, offset, maxMr, replies, ids, sizes, offsets)
    requires Remaining(total, cap, |ids|) > 0 && current == OffsetOf(offset, total, cap, |ids|)
    requires Accepts(now, replies(|ids|), ChunkSize(total, cap, |ids|), maxMr)
    ensures var r, size := replies(|ids|), ChunkSize(total, cap, |ids|);
            Loop(m, now[r.id := Segment(BaseOf(r), size)], total, cap, offset, maxMr, replies,
                 ids + [r.id], sizes + [size], offsets + [current])
  {
    var n, r, size := |ids|, replies(|ids|), ChunkSize(total, cap, |ids|);
    assert AcceptedUpTo(m, total, cap, maxMr, replies, n + 1) by { AcceptedGrows(m, total, cap, maxMr, replies, n); }
    assert Cut(total, cap, offset, sizes + [size], offsets + [current]);
    assert MountedAfter(m, total, cap, replies, n + 1) == now[r.id := Segment(BaseOf(r), size)];
  }

  lemma AcceptedGrows(m: map<Id, Segment>, total: Word, cap: Word, maxMr: Word, replies: nat -> ChunkReply, n: nat)
    requires AcceptedUpTo(m, total, cap, maxMr, replies, n) && ChunkAccepted(m, total, cap, maxMr, replies, n)
    ensures AcceptedUpTo(m, total, cap, maxMr, replies, n + 1)
  {
  }

  /** The map has gained exactly these ids, each with its chunk. */
  ghost predicate Gained(m: map<Id, Segment>, now: map<Id, Segment>, ids: seq<Id>, sizes: seq<Word>,
                         replies: nat -> ChunkReply)
    requires |ids| == |sizes|
  {
    && (forall j :: j in now <==> j in m || j in ids) && (forall j <- m :: now[j] == m[j])
    && forall i :: 0 <= i < |ids| ==> now[ids[i]] == Segment(BaseOf(replies(i)), sizes[i])
  }

  lemma {:induction false} MountedAfterGains(m: map<Id, Segment>, total: Word, cap: Word, replies: nat -> ChunkReply,
                                             ids: seq<Id>, sizes: seq<Word>)
    requires FreshIds(replies, m.Keys) && IdsOf(ids, replies) && |ids| == |sizes|
    requires forall i :: 0 <= i < |sizes| ==> sizes[i] == ChunkSize(total, cap, i)
    ensures Gained(m, MountedAfter(m, total, cap, replies, |ids|), ids, sizes, replies)
  {
    if ids != [] {
      var n := |ids| - 1;
      MountedAfterGains(m, total, cap, replies, ids[..n], sizes[..n]);
      var before, now := MountedAfter(m, total, cap, replies, n), MountedAfter(m, total, cap, replies, |ids|);
      assert now == before[ids[n] := Segment(BaseOf(replies(n)), sizes[n])];
      assert ids == ids[..n] + [ids[n]];
      forall i | 0 <= i < n ensures now[ids[i]] == Segment(BaseOf(replies(i)), sizes[i]) {
        assert ids[..n][i] == ids[i] && ids[i] != ids[n];
      }
    }
  }

  /**
   Chunk i, `cap` bytes or what is left of the total, gets memory apart from the segments and from the
   chunks before it, and is registered and mounted.
   */
  ghost predicate ChunkFits(m: map<Id, Segment>, total: Word, cap: Word, maxMr: Word, replies: nat -> ChunkReply,
                            i: nat)
  {
    var r, size := replies(i), if total - i * cap < cap then total - i * cap else cap;
    && r.memory.Some? && 0 < r.memory.value && r.memory.value + size < WORD_SPAN
    && size <= maxMr && r.registered && r.master.None?
    && (forall id <- m :: m[id].base + m[id].size <= r.memory.value || r.memory.value + size <= m[id].base)
    && (forall j: nat | j < i ::
          && replies(j).memory.Some?
          && (replies(j).memory.value + cap <= r.memory.value || r.memory.value + size <= replies(j).memory.value))
  }

  ghost predicate AllProper(m: map<Id, Segment>) {
    forall id <- m :: Proper(m[id])
  }

  /** Everything is accepted exactly if every chunk fits, no byte being shared. */
  lemma AllAcceptedIff(m: map<Id, Segment>, total: Word, cap: Word, maxMr: Word, replies: nat -> ChunkReply)
    requires cap > 0 && FreshIds(replies, m.Keys) && AllProper(m)
    ensures AllAccepted(m, total, cap, maxMr, replies) <==>
            forall i: nat :: i * cap < total ==> ChunkFits(m, total, cap, maxMr, replies, i)
  {
    if AllAccepted(m, total, cap, maxMr, replies) {
      forall i: nat | i * cap < total ensures ChunkFits(m, total, cap, maxMr, replies, i) {
        AcceptedFits(m, total, cap, maxMr, replies, i);
      }
    }
    if forall i: nat :: i * cap < total ==> ChunkFits(m, total, cap, maxMr, replies, i) {
      forall i: nat | Remaining(total, cap, i) > 0 ensures ChunkAccepted(m, total, cap, maxMr, replies, i) {
        RemainingIs(total, cap, i);
        FittingAccepted(m, total, cap, maxMr, replies, i);
      }
    }
  }

  /** The segments next to chunk i: those of before, and the chunks before it. */
  lemma BeforeChunk(m: map<Id, Segment>, total: Word, cap: Word, replies: nat -> ChunkReply, i: nat)
    requires FreshIds(replies, m.Keys) && i * cap < total
    ensures var now := MountedAfter(m, total, cap, replies, i);
            && (forall id <- m :: id in now && now[id] == m[id])
            && (forall j: nat | j < i :: replies(j).id in now && now[replies(j).id] == Segment(BaseOf(replies(j)), cap))
            && (forall id <- now :: id in m || exists j: nat :: j < i && id == replies(j).id)
  {
    var ids := seq(i, j requires 0 <= j < i => replies(j).id);
    var sizes := seq(i, j requires 0 <= j < i => ChunkSize(total, cap, j));
    MountedAfterGains(m, total, cap, replies, ids, sizes);
    var now := MountedAfter(m, total, cap, replies, i);
    forall j: nat | j < i ensures replies(j).id in now && now[replies(j).id] == Segment(BaseOf(replies(j)), cap) {
      assert ids[j] in ids;
      FullChunk(total, cap, j, i);
    }
    forall id <- now | id !in m ensures exists j: nat :: j < i && id == replies(j).id {
      var j :| 0 <= j < i && ids[j] == id;
    }
  }

  /** A chunk before another is a full one. */
  lemma FullChunk(total: Word, cap: Word, j: nat, i: nat)
    requires j < i && i * cap < total
    ensures ChunkSize(total, cap, j) == cap && j * cap < total
  {
    RemainingIs(total, cap, j);
    MulLe(j + 1, i, cap);
    assert (j + 1) * cap == j * cap + cap;
  }

  lemma AcceptedFits(m: map<Id, Segment>, total: Word, cap: Word, maxMr: Word, replies: nat -> ChunkReply, i: nat)
    requires cap > 0 && FreshIds(replies, m.Keys) && AllProper(m)
    requires AllAccepted(m, total, cap, maxMr, replies) && i * cap < total
    ensures ChunkFits(m, total, cap, maxMr, replies, i)
  {
    RemainingIs(total, cap, i);
    var now, r, size := MountedAfter(m, total, cap, replies, i), replies(i), ChunkSize(total, cap, i);
    assert ChunkAccepted(m, total, cap, maxMr, replies, i);
    BeforeChunk(m, total, cap, replies, i);
    forall id <- m
      ensures m[id].base + m[id].size <= r.memory.value || r.memory.value + size <= m[id].base
    {
      assert now[id] == m[id];
      CollideExact(m[id], BaseOf(r), size);
    }
    forall j: nat | j < i
      ensures replies(j).memory.Some?
      ensures replies(j).memory.value + cap <= r.memory.value || r.memory.value + size <= replies(j).memory.value
    {
      FullChunk(total, cap, j, i);
      RemainingIs(total, cap, j);
      assert ChunkAccepted(m, total, cap, maxMr, replies, j);
      assert !Collide(now[replies(j).id], BaseOf(r), size);
      CollideExact(Segment(BaseOf(replies(j)), cap), BaseOf(r), size);
    }
  }

  /** A chunk that fits collides with no segment and no chunk before it. */
  lemma FitsBeside(m: map<Id, Segment>, total: Word, cap: Word, maxMr: Word, replies: nat -> ChunkReply, i: nat)
    requires cap > 0 && AllProper(m) && i * cap < total && ChunkFits(m, total, cap, maxMr, replies, i)
    ensures forall id <- m :: !Collide(m[id], BaseOf(replies(i)), ChunkSize(total, cap, i))
    ensures forall j: nat | j < i && BaseOf(replies(j)) + cap < WORD_SPAN ::
              !Collide(Segment(BaseOf(replies(j)), cap), BaseOf(replies(i)), ChunkSize(total, cap, i))
  {
    RemainingIs(total, cap, i);
    var base, size := BaseOf(replies(i)), ChunkSize(total, cap, i);
    forall id <- m ensures !Collide(m[id], base, size) {
      CollideExact(m[id], base, size);
    }
    forall j: nat | j < i && BaseOf(replies(j)) + cap < WORD_SPAN
      ensures !Collide(Segment(BaseOf(replies(j)), cap), base, size)
    {
      CollideExact(Segment(BaseOf(replies(j)), cap), base, size);
    }
  }

  /** The chunk before another one ends at an address. */
  lemma FitsWhole(m: map<Id, Segment>, total: Word, cap: Word, maxMr: Word, replies: nat -> ChunkReply, j: nat, i: nat)
    requires j < i && i * cap < total && ChunkFits(m, total, cap, maxMr, replies, j)
    ensures BaseOf(replies(j)) + cap < WORD_SPAN
  {
    FullChunk(total, cap, j, i);
    RemainingIs(total, cap, j);
  }

  lemma FittingAccepted(m: map<Id, Segment>, total: Word, cap: Word, maxMr: Word, replies: nat -> ChunkReply, i: nat)
    requires cap > 0 && FreshIds(replies, m.Keys) && AllProper(m)
    requires forall j: nat :: j * cap < total ==> ChunkFits(m, total, cap, maxMr, replies, j)
    requires i * cap < total
    ensures ChunkAccepted(m, total, cap, maxMr, replies, i)
  {
    var now, r, size := MountedAfter(m, total, cap, replies, i), replies(i), ChunkSize(total, cap, i);
    forall id <- now ensures !Collide(now[id], BaseOf(r), size) {
      BeforeChunk(m, total, cap, replies, i);
      FitsBeside(m, total, cap, maxMr, replies, i);
      if id !in m {
        var j: nat :| j < i && id == replies(j).id;
        FullChunk(total, cap, j, i);
        FitsWhole(m, total, cap, maxMr, replies, j, i);
      }
    }
    RemainingIs(total, cap, i);
    assert ChunkFits(m, total, cap, maxMr, replies, i);
  }

  // ----- giving up -----

  /** What the master and the transfer engine answer to an unmount; NOT_REGISTERED counts as unregistered. */
  predicate UnmountOk(master: Option<ErrorCode>, unregistered: bool) {
    master.None? && unregistered
  }

  /** The answer to unmounting an id, at once or gracefully, while these ids are mounted. */
  function UnmountError(id: Id, mounted: set<Id>, atOnce: bool, master: Option<ErrorCode>,
                        unregistered: bool): Option<ErrorCode> {
    if id !in mounted then Some(InvalidParams)
    else if master.Some? then master
    else if atOnce && !unregistered then Some(InternalError)
    else None
  }

  /** The map after the first n ids were rolled back. */
  ghost function RolledMap(m: map<Id, Segment>, ids: seq<Id>, n: nat, master: nat -> Option<ErrorCode>,
                           unregistered: nat -> bool): map<Id, Segment>
    requires n <= |ids|
  {
    if n == 0 then m else
      var before := RolledMap(m, ids, n - 1, master, unregistered);
      if UnmountOk(master(n - 1), unregistered(n - 1)) then before - {ids[n - 1]} else before
  }

  /** Of the first n ids exactly those have left the map whose unmount was granted; everything else is as it was. */
  lemma {:induction false} RolledMapIs(m: map<Id, Segment>, ids: seq<Id>, n: nat, master: nat -> Option<ErrorCode>,
                                       unregistered: nat -> bool)
    requires n <= |ids| && (forall i :: 0 <= i < |ids| ==> ids[i] in m)
    requires forall i, j :: 0 <= i < j < |ids| ==> ids[i] != ids[j]
    ensures var now := RolledMap(m, ids, n, master, unregistered);
            && now.Keys <= m.Keys && (forall j <- now :: now[j] == m[j])
            && (forall i :: 0 <= i < |ids| ==> (ids[i] in now <==> n <= i || !UnmountOk(master(i), unregistered(i))))
            && (forall j <- m :: j !in ids ==> j in now)
  {
    if n > 0 { RolledMapIs(m, ids, n - 1, master, unregistered); }
  }

  /**
   After a failed mount of which n chunks had been mounted: old segments are as they were, and a chunk is
   in the map exactly when its rollback was refused the unmount.
   */
  ghost predicate Left(m: map<Id, Segment>, now: map<Id, Segment>, n: nat, total: Word, cap: Word,
                       replies: nat -> ChunkReply, master: nat -> Option<ErrorCode>, unregistered: nat -> bool)
  {
    && (forall j <- m :: j in now && now[j] == m[j])
    && (forall j <- now :: j in m || exists i :: 0 <= i < n && replies(i).id == j)
    && (forall i :: 0 <= i < n ==> (replies(i).id in now <==> !UnmountOk(master(i), unregistered(i))))
    && (forall i :: 0 <= i < n && replies(i).id in now ==>
          now[replies(i).id] == Segment(BaseOf(replies(i)), ChunkSize(total, cap, i)))
  }

  lemma GainedThenDropped(m: map<Id, Segment>, top: map<Id, Segment>, now: map<Id, Segment>, ids: seq<Id>,
                          sizes: seq<Word>, total: Word, cap: Word, replies: nat -> ChunkReply,
                          master: nat -> Option<ErrorCode>, unregistered: nat -> bool)
    requires FreshIds(replies, m.Keys) && IdsOf(ids, replies) && |ids| == |sizes|
    requires forall i :: 0 <= i < |sizes| ==> sizes[i] == ChunkSize(total, cap, i)
    requires Gained(m, top, ids, sizes, replies) && now == RolledMap(top, ids, |ids|, master, unregistered)
    ensures Left(m, now, |ids|, total, cap, replies, master, unregistered)
  {
    RolledMapIs(top, ids, |ids|, master, unregistered);
    forall j <- m ensures j in now && now[j] == m[j] {
      assert j in top && j !in ids;
    }
    forall i | 0 <= i < |ids|
      ensures ids[i] == replies(i).id && (replies(i).id in now <==> !UnmountOk(master(i), unregistered(i)))
      ensures ids[i] in now ==> now[ids[i]] == Segment(BaseOf(replies(i)), ChunkSize(total, cap, i))
    {
      assert ids[i] in top;
    }
  }

  // ----- unmounting a list -----

  /** The ids still mounted after the first n unmounts of the list. */
  ghost function LeftAfter(ids: seq<Id>, mounted: set<Id>, atOnce: bool, master: nat -> Option<ErrorCode>,
                           unregistered: nat -> bool, n: nat): set<Id>
    requires n <= |ids|
  {
    if n == 0 then mounted else
      var left := LeftAfter(ids, mounted, atOnce, master, unregistered, n - 1);
      if UnmountError(ids[n - 1], left, atOnce, master(n - 1), unregistered(n - 1)).None? then left - {ids[n - 1]}
          else left
  }

  /** The first error among the first n unmounts of the list. */
  ghost function FirstError(ids: seq<Id>, mounted: set<Id>, atOnce: bool, master: nat -> Option<ErrorCode>,
                            unregistered: nat -> bool, n: nat): Option<ErrorCode>
    requires n <= |ids|
  {
    if n == 0 then None else
      var e := FirstError(ids, mounted, atOnce, master, unregistered, n - 1);
      if e.Some? then e else
        UnmountError(ids[n - 1], LeftAfter(ids, mounted, atOnce, master, unregistered, n - 1), atOnce, master(n - 1),
                     unregistered(n - 1))
  }

  /** The master, and at once the transfer engine too, lets go at position i. */
  ghost predicate Granted(atOnce: bool, master: nat -> Option<ErrorCode>, unregistered: nat -> bool, i: nat) {
    master(i).None? && (atOnce ==> unregistered(i))
  }

  /** An id goes exactly if it was mounted and some mention of it is granted. */
  lemma {:induction false} GoesIff(ids: seq<Id>, mounted: set<Id>, atOnce: bool, master: nat -> Option<ErrorCode>,
                                   unregistered: nat -> bool, n: nat, id: Id)
    requires n <= |ids|
    ensures id in LeftAfter(ids, mounted, atOnce, master, unregistered, n) <==>
            id in mounted && forall i :: 0 <= i < n && ids[i] == id ==> !Granted(atOnce, master, unregistered, i)
  {
    if n > 0 { GoesIff(ids, mounted, atOnce, master, unregistered, n - 1, id); }
  }

  /** Every id of the list is mounted, named once and let go. */
  ghost predicate Unmountable(ids: seq<Id>, mounted: set<Id>, atOnce: bool, master: nat -> Option<ErrorCode>,
                              unregistered: nat -> bool, n: nat)
    requires n <= |ids|
  {
    && (forall i :: 0 <= i < n ==> ids[i] in mounted && Granted(atOnce, master, unregistered, i))
    && forall i, j :: 0 <= i < j < n ==> ids[i] != ids[j]
  }

  lemma {:induction false} NoErrorIff(ids: seq<Id>, mounted: set<Id>, atOnce: bool, master: nat -> Option<ErrorCode>,
                                      unregistered: nat -> bool, n: nat)
    requires n <= |ids|
    ensures FirstError(ids, mounted, atOnce, master, unregistered, n).None? <==>
            Unmountable(ids, mounted, atOnce, master, unregistered, n)
  {
    if n > 0 {
      NoErrorIff(ids, mounted, atOnce, master, unregistered, n - 1);
      GoesIff(ids, mounted, atOnce, master, unregistered, n - 1, ids[n - 1]);
    }
  }

  /**
   The first error is that of the first id that is not let go: it is not mounted or no longer, the master
   refuses it with this error, or the transfer engine does.
   */
  lemma {:induction false} FirstErrorIs(ids: seq<Id>, mounted: set<Id>, atOnce: bool,
                                        master: nat -> Option<ErrorCode>, unregistered: nat -> bool, n: nat)
    returns (i: nat)
    requires n <= |ids| && FirstError(ids, mounted, atOnce, master, unregistered, n).Some?
    ensures i < n && Unmountable(ids, mounted, atOnce, master, unregistered, i)
    ensures FirstError(ids, mounted, atOnce, master, unregistered, n) ==
            if ids[i] !in mounted || ids[i] in ids[..i] then Some(InvalidParams)
            else if master(i).Some? then master(i) else Some(InternalError)
    ensures ids[i] in mounted && ids[i] !in ids[..i] && master(i).None? ==> atOnce && !unregistered(i)
  {
    if FirstError(ids, mounted, atOnce, master, unregistered, n - 1).Some? {
      i := FirstErrorIs(ids, mounted, atOnce, master, unregistered, n - 1);
    } else {
      i := n - 1;
      NoErrorIff(ids, mounted, atOnce, master, unregistered, i);
      GoesIff(ids, mounted, atOnce, master, unregistered, i, ids[i]);
    }
  }

  /** The ids of the list that can be read and have a record. */
  ghost function Chosen(ids: seq<Option<Id>>, records: set<Id>): seq<Id> {
    if ids == [] then [] else
      var last := ids[|ids| - 1];
      Chosen(ids[..|ids| - 1], records) + if last.Some? && last.value in records then [last.value] else []
  }

  ghost predicate AllRecorded(ids: seq<Option<Id>>, records: set<Id>) {
    forall i :: 0 <= i < |ids| ==> ids[i].Some? && ids[i].value in records
  }

  lemma ChosenIs(ids: seq<Option<Id>>, records: set<Id>)
    ensures forall id <- Chosen(ids, records) :: id in records && Some(id) in ids
    ensures AllRecorded(ids, records) ==>
              |Chosen(ids, records)| == |ids| && forall i :: 0 <= i < |ids| ==> ids[i] == Some(Chosen(ids, records)[i])
  {
    forall id <- Chosen(ids, records) ensures id in records && Some(id) in ids { ChosenFrom(ids, records, id); }
    if AllRecorded(ids, records) { AllChosen(ids, records); }
  }

  lemma {:induction false} ChosenFrom(ids: seq<Option<Id>>, records: set<Id>, id: Id)
    requires id in Chosen(ids, records)
    ensures id in records && Some(id) in ids
  {
    var n := |ids| - 1;
    if id in Chosen(ids[..n], records) {
      ChosenFrom(ids[..n], records, id);
    } else {
      assert ids[n] == Some(id);
    }
  }

  lemma {:induction false} AllChosen(ids: seq<Option<Id>>, records: set<Id>)
    requires AllRecorded(ids, records)
    ensures |Chosen(ids, records)| == |ids| && forall i :: 0 <= i < |ids| ==> ids[i] == Some(Chosen(ids, records)[i])
  {
    if ids != [] {
      var n := |ids| - 1;
      AllChosen(ids[..n], records);
      assert Chosen(ids, records) == Chosen(ids[..n], records) + [ids[n].value];
    }
  }

  /** Every id of the list that has a record is chosen. */
  lemma {:induction false} ChosenHas(ids: seq<Option<Id>>, records: set<Id>, i: nat)
    requires i < |ids| && ids[i].Some? && ids[i].value in records
    ensures ids[i].value in Chosen(ids, records)
  {
    if i < |ids| - 1 {
      ChosenHas(ids[..|ids| - 1], records, i);
    } else {
      assert Chosen(ids, records)[|Chosen(ids, records)| - 1] == ids[i].value;
    }
  }
}
