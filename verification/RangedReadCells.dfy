/**
 What a ranged read answers for each fragment, in terms of the request, the room behind each buffer, the
 metadata and the replies: when it is read, and which error it gets otherwise.
 */
module RangedReadCells {
  import opened Machine
  import opened Store
  import opened ShmMapping
  import opened RangedRead
  import opened RangedReadTheorems

  /** The result has one row per key, with one cell per fragment, or one cell if the lists of the buffer disagree. */
  lemma ServedShape(q: Request, e: Env, results: seq<seq<seq<Cell>>>, was: seq<Byte>, now: seq<Byte>)
    requires Served(q, e, results, was, now)
    ensures |results| == |e.bases| == |q.keys| == |q.dst| == |q.src| == |q.sizes|
    ensures forall i :: 0 <= i < |results| ==> |results[i]| == |q.keys[i]|
    ensures forall i, j :: 0 <= i < |results| && 0 <= j < |results[i]| ==>
              |results[i][j]| == if |q.keys[i]| == |q.dst[i]| == |q.src[i]| == |q.sizes[i]| then |q.dst[i][j]| else 1
  {
    forall i, j | 0 <= i < |results| && 0 <= j < |results[i]| ensures |results[i][j]| == RowLength(q, i, j) {
      assert BufferDone(q, e, i, results[i]) && RowDone(q, e, i, j, results[i][j]);
    }
    assert forall i :: 0 <= i < |results| ==> BufferDone(q, e, i, results[i]);
  }

  /** The cell exists, so its fragment is in the shape of the request. */
  lemma CellInShape(q: Request, e: Env, results: seq<seq<seq<Cell>>>, was: seq<Byte>, now: seq<Byte>,
                    i: nat, j: nat, k: nat)
    requires Served(q, e, results, was, now) && i < |results| && j < |results[i]| && k < |results[i][j]|
    ensures InShape(q, e, i, j, k) && results[i][j][k] == CellAt(q, e, i, j, k)
  {
    assert BufferDone(q, e, i, results[i]) && RowDone(q, e, i, j, results[i][j]);
  }

  /**
   get_into_ranges. The room behind a buffer is what is left of the first registered area that holds it,
   else of the local one, and nothing if none does. A fragment is read exactly if the lists agree, its end
   is an address inside that room, the key has metadata, the source range lies in the object, and every
   step of reading from the replica's kind succeeds; otherwise the first failing step gives the error.
   */
  lemma GetIntoRangesCells(q: Request, e: Env, registered: seq<Area>, local: Option<Area>,
                           results: seq<seq<seq<Cell>>>, was: seq<Byte>, now: seq<Byte>,
                           i: nat, j: nat, k: nat, at: nat, room: int)
    requires Served(q, e, results, was, now) && Roomy(e.bases, registered, local, e.caps) && !e.capsGiven
    requires i < |results| && j < |results[i]| && k < |results[i][j]| && i < |e.bases|
    requires at <= |registered| && (forall g :: 0 <= g < at ==>
                                      !(registered[g].base <= e.bases[i] < registered[g].base + registered[g].size))
    requires at < |registered| ==> registered[at].base <= e.bases[i] < registered[at].base + registered[at].size
    requires room == if at < |registered| then registered[at].base + registered[at].size - e.bases[i]
                     else if local.Some? && local.value.base <= e.bases[i] < local.value.base + local.value.size
                     then local.value.base + local.value.size - e.bases[i] else 0
    ensures |q.keys| == |q.dst| == |q.src| == |q.sizes| && i < |q.keys| && j < |q.keys[i]|
    ensures |q.keys[i]| == |q.dst[i]| == |q.src[i]| == |q.sizes[i]| ==> k < |q.dst[i][j]|
    ensures var cell, r := results[i][j][k], e.replies(i, j, k);
            if !(|q.keys[i]| == |q.dst[i]| == |q.src[i]| == |q.sizes[i]|) then cell == Err(InvalidParams)
            else if !(|q.dst[i][j]| == |q.src[i][j]| == |q.sizes[i][j]|) then cell == Err(InvalidParams)
            else
              var d, s, n, meta := q.dst[i][j][k], q.src[i][j][k], q.sizes[i][j][k], e.meta(q.keys[i][j]);
              if d + n >= WORD_SPAN || room == 0 || (n > 0 && d + n > room) then cell == Err(InvalidParams)
              else if meta.Err? then cell == Err(meta.error)
              else
                var m, whole := meta.value, s == 0 && n == meta.value.total;
                if s + n > m.total then cell == Err(InvalidParams)
                else if m.kind == NofSsd && !whole then cell == Err(InvalidReplica)
                else if m.kind == Disk || (m.kind == LocalDisk && !whole) then
                  cell == if !r.alloc then Err(NoAvailableHandle)
                          else if r.get.Some? then Err(r.get.value)
                          else if r.scatter.Some? then Err(r.scatter.value) else Ok(n)
                else cell == if r.get.Some? then Err(r.get.value) else Ok(n)
  {
    CellInShape(q, e, results, was, now, i, j, k);
    RoomIs(e.bases[i], registered, local, at);
    assert e.caps[i] == Room(e.bases[i], registered, local);
  }

  /** The first registered area that holds the address decides, then the local one. */
  lemma {:induction false} RoomIs(b: Word, registered: seq<Area>, local: Option<Area>, at: nat)
    requires at <= |registered| && forall g :: 0 <= g < at ==>
               !(registered[g].base <= b < registered[g].base + registered[g].size)
    requires at < |registered| ==> registered[at].base <= b < registered[at].base + registered[at].size
    ensures Room(b, registered, local) ==
            if at < |registered| then registered[at].base + registered[at].size - b
            else if local.Some? && local.value.base <= b < local.value.base + local.value.size
            then local.value.base + local.value.size - b else 0
  {
    if at > 0 {
      RoomIs(b, registered[1..], local, at - 1);
    }
  }

  /**
   get_into_ranges over shared memory, once it serves the request: there is always room, so a fragment is
   read exactly if the lists agree, its end is an address, the key has metadata, the source range lies in
   the object, and every step of reading succeeds.
   */
  lemma ShmCells(q: Request, dummies: seq<Word>, shms: seq<MappedShm>, e: Env,
                 results: seq<seq<seq<Cell>>>, was: seq<Byte>, now: seq<Byte>, i: nat, j: nat, k: nat)
    requires Served(q, e, results, was, now) && ShmEnv(q, dummies, shms, e)
    requires i < |results| && j < |results[i]| && k < |results[i][j]|
    ensures |q.keys| == |q.dst| == |q.src| == |q.sizes| && i < |q.keys| && j < |q.keys[i]|
    ensures |q.keys[i]| == |q.dst[i]| == |q.src[i]| == |q.sizes[i]| ==> k < |q.dst[i][j]|
    ensures var cell, r := results[i][j][k], e.replies(i, j, k);
            if !(|q.keys[i]| == |q.dst[i]| == |q.src[i]| == |q.sizes[i]|) then cell == Err(InvalidParams)
            else if !(|q.dst[i][j]| == |q.src[i][j]| == |q.sizes[i][j]|) then cell == Err(InvalidParams)
            else
              var d, s, n, meta := q.dst[i][j][k], q.src[i][j][k], q.sizes[i][j][k], e.meta(q.keys[i][j]);
              if d + n >= WORD_SPAN then cell == Err(InvalidParams)
              else if meta.Err? then cell == Err(meta.error)
              else
                var m, whole := meta.value, s == 0 && n == meta.value.total;
                if s + n > m.total then cell == Err(InvalidParams)
                else if m.kind == NofSsd && !whole then cell == Err(InvalidReplica)
                else if m.kind == Disk || (m.kind == LocalDisk && !whole) then
                  cell == if !r.alloc then Err(NoAvailableHandle)
                          else if r.get.Some? then Err(r.get.value)
                          else if r.scatter.Some? then Err(r.scatter.value) else Ok(n)
                else cell == if r.get.Some? then Err(r.get.value) else Ok(n)
  {
    CellInShape(q, e, results, was, now, i, j, k);
    ShmRejectsNoValidFragment(q, dummies, shms, e, i, j, k);
  }

  /**
   A fragment that fails before its read reaches the destination leaves it as it was: nothing went wrong
   in the store itself, or the read went through a temporary buffer and got no further.
   */
  lemma RefusedUntouched(q: Request, e: Env, results: seq<seq<seq<Cell>>>, was: seq<Byte>, now: seq<Byte>,
                         i: nat, j: nat, k: nat, x: nat)
    requires Served(q, e, results, was, now) && Owns(q, e, x, i, j, k) && OneOwner(q, e, x) && x < |was|
    requires i < |results| && j < |results[i]| && k < |results[i][j]| && results[i][j][k].Err?
    requires var r, meta := e.replies(i, j, k), e.meta(q.keys[i][j]);
             || (r.get.None? && r.scatter.None?)
             || (meta.Ok? && (!r.alloc || r.get.Some?) &&
                 (meta.value.kind == Disk ||
                  (meta.value.kind == LocalDisk && (q.src[i][j][k] > 0 || q.sizes[i][j][k] != meta.value.total))))
    ensures x < |now| && now[x] == was[x]
  {
    CellInShape(q, e, results, was, now, i, j, k);
    assert WriteAt(q, e, i, j, k) == [];
    var ws := AllWrites(q, e, |e.bases|);
    forall n | 0 <= n < |ws| ensures !Within(ws[n], x) {
      RequestCaused(q, e, |e.bases|, ws[n]);
      WritesStayInside(q, e, ws[n]);
      assert !Owns(q, e, x, ws[n].i, ws[n].j, ws[n].k);
    }
    ApplyOutside(was, ws, x);
  }

  /** Mapping m holds buffer i of the client up to the end of every fragment whose lists agree. */
  ghost predicate Reaches(q: Request, dummies: seq<Word>, shms: seq<MappedShm>, i: nat, m: nat)
    requires |q.keys| == |q.dst| == |q.src| == |q.sizes| == |dummies|
  {
    && i < |dummies| && m < |shms| && shms[m].dummyBase <= dummies[i] <= shms[m].dummyBase + shms[m].size
    && (|q.keys[i]| == |q.dst[i]| == |q.src[i]| == |q.sizes[i]| ==>
          forall j, k :: 0 <= j < |q.keys[i]| && 0 <= k < |q.dst[i][j]| &&
                         |q.dst[i][j]| == |q.src[i][j]| == |q.sizes[i][j]| &&
                         q.dst[i][j][k] + q.sizes[i][j][k] < WORD_SPAN ==>
            dummies[i] + q.dst[i][j][k] + q.sizes[i][j][k] <= shms[m].dummyBase + shms[m].size)
  }

  /**
   The shared-memory variant refuses nothing it could serve: it is enough that some fragment has lists
   that agree and an end that is an address, and that every buffer is mapped as far as it is needed.
   */
  lemma ShmServes(q: Request, dummies: seq<Word>, shms: seq<MappedShm>, maps: seq<nat>, i: nat, j: nat, k: nat)
    requires AllMapped(shms) && |q.keys| == |q.dst| == |q.src| == |q.sizes| == |dummies|
    requires i < |q.keys| && |q.keys[i]| == |q.dst[i]| == |q.src[i]| == |q.sizes[i]|
    requires j < |q.keys[i]| && k < |q.dst[i][j]| == |q.src[i][j]| == |q.sizes[i][j]|
    requires q.dst[i][j][k] + q.sizes[i][j][k] < WORD_SPAN
    requires |maps| == |dummies| && forall b :: 0 <= b < |dummies| ==> Reaches(q, dummies, shms, b, maps[b])
    ensures TopOk(q, |dummies|) && Anything(q) && !Untranslatable(q, dummies, shms)
  {
    assert Valid(q, i, j, k) && SomeValid(q, i, |q.keys[i]|);
    forall b, size: Word | 0 <= b < |dummies| && LargestEnd(q, b, |q.keys[b]|, size)
      ensures Scan(shms, dummies[b], size, 0).Some?
    {
      Translates(q, dummies, shms, b, maps[b], size);
    }
  }

  lemma Translates(q: Request, dummies: seq<Word>, shms: seq<MappedShm>, i: nat, m: nat, size: Word)
    requires AllMapped(shms) && |q.keys| == |q.dst| == |q.src| == |q.sizes| == |dummies|
    requires Reaches(q, dummies, shms, i, m) && LargestEnd(q, i, |q.keys[i]|, size)
    ensures Scan(shms, dummies[i], size, 0).Some?
  {
    MapRangeExact(shms[m], dummies[i], 0, size);
    ScanExact(shms, dummies[i], size, 0);
  }

  /** One registered buffer of 4096 bytes, one fragment of 100 bytes of a key in memory: it is read. */
  lemma ReadExample(e: Env, results: seq<seq<seq<Cell>>>, was: seq<Byte>, now: seq<Byte>)
    requires var q := Request([["k"]], [[[0]]], [[[0]]], [[[100]]]);
             Served(q, e, results, was, now) && Roomy(e.bases, [Area(0x1000, 4096)], None, e.caps)
    requires e.bases == [0x1000] && !e.capsGiven && e.meta("k") == Ok(Meta(Memory, 4096)) &&
             e.replies(0, 0, 0).get == None
    ensures results == [[[Ok(100)]]]
  {
    var q := Request([["k"]], [[[0]]], [[[0]]], [[[100]]]);
    var area := Area(0x1000, 4096);
    ServedShape(q, e, results, was, now);
    GetIntoRangesCells(q, e, [area], None, results, was, now, 0, 0, 0, 0, 4096);
    assert results[0][0] == [Ok(100)] && results[0] == [[Ok(100)]];
  }
}
