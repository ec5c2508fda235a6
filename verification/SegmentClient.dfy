/**
 The client object that mounts and unmounts segments. Its methods change the two segment maps, the
 callback table and the record tables in place; each is proved to be a list of actions of SegmentSpec.
 */
module SegmentClient {
  import opened Machine
  import opened Store
  import opened Ledger
  import opened SegmentSpec
  import opened SegmentChunks

  /** What is kept of an id beside the three tables: its timer task, its memory, and what running calls still owe it. */
  datatype Book = Book(timer: Option<nat>, asking: bool, polls: nat, running: Option<Table>, block: Option<Block>) {
    predicate Staged(stage: Stage) {
      block.Some? && block.value.stage == stage
    }

    function WithStage(stage: Stage): Book
      requires block.Some?
    {
      this.(block := Some(block.value.(stage := stage)))
    }

    /** No call is in the middle of something about this id. */
    predicate Settled() {
      running.None? && !asking && (block.Some? ==> Staged(Recorded))
    }
  }

  const BLANK_BOOK := Book(None, false, 0, None, None)

  /** The cleanup stored for an id. */
  function Cleanup(callbacks: map<Id, Table>, id: Id): Option<Table> {
    if id in callbacks then Some(callbacks[id]) else None
  }

  lemma SetTwice(books: map<Id, Book>, id: Id, b: Book, c: Book)
    ensures books[id := b][id := c] == books[id := c]
  {
  }

  /** The book of a chunk that has just been mounted. */
  function ChunkBook(name: nat, table: Table, base: Word, size: Word): Book {
    BLANK_BOOK.(block := Some(Block(name, table, base, size, InFlight)))
  }

  /** The tables an unmount call works on. */
  datatype Tables = Tables(mounted: map<Id, Segment>, graceful: map<Id, Segment>, callbacks: map<Id, Table>,
                           books: map<Id, Book>)

  const NO_TABLES := Tables(map[], map[], map[], map[])

  /** What the tables say about an id. */
  function ViewOf(t: Tables, id: Id): View
    requires id in t.books
  {
    var b := t.books[id];
    View(if id in t.mounted then Some(t.mounted[id]) else None, if id in t.graceful then Some(t.graceful[id]) else None,
         Cleanup(t.callbacks, id), b.timer, b.asking, b.polls, b.running, b.block)
  }

  /** The state of the machine is what the tables say. */
  ghost predicate Shows(s: State, t: Tables) {
    s.views.Keys == t.books.Keys && forall id <- t.books :: s.views[id] == ViewOf(t, id)
  }

  /** The record table has this id. */
  predicate RecordedIn(books: map<Id, Book>, id: Id, table: Table) {
    id in books && books[id].Staged(Recorded) && books[id].block.value.table == table
  }

  function Records(books: map<Id, Book>, table: Table): set<Id> {
    set id | id in books && RecordedIn(books, id, table)
  }

  ghost predicate AllSettled(books: map<Id, Book>) {
    forall id <- books :: books[id].Settled()
  }

  // ----- the books of a mount call -----

  ghost predicate HasChunk(books: map<Id, Book>, id: Id, size: Word, table: Table, stage: Stage) {
    && id in books && books[id].Staged(stage) && books[id] == BLANK_BOOK.(block := books[id].block)
    && books[id].block.value.size == size && books[id].block.value.table == table
  }

  /**
   The first n of the new ids are finished, with a chunk in stage `done` or with nothing left; the others
   are in flight.
   */
  ghost predicate ChunkAt(books: map<Id, Book>, ids: seq<Id>, sizes: seq<Word>, table: Table, n: nat,
                          done: Option<Stage>, i: nat)
    requires i < |ids| == |sizes|
  {
    if i < n && done.None? then ids[i] in books && books[ids[i]] == BLANK_BOOK
    else HasChunk(books, ids[i], sizes[i], table, if i < n then done.value else InFlight)
  }

  /** Exactly these ids are new; old ids are as they were. */
  ghost predicate Mounting(was: map<Id, Book>, books: map<Id, Book>, ids: seq<Id>, sizes: seq<Word>, table: Table,
                           n: nat, done: Option<Stage>)
  {
    && |ids| == |sizes|
    && (forall i :: 0 <= i < |ids| ==> ids[i] !in was && ChunkAt(books, ids, sizes, table, n, done, i))
    && (forall i, j :: 0 <= i < j < |ids| ==> ids[i] != ids[j])
    && (forall j :: j in books <==> j in was || j in ids) && (forall j <- was :: books[j] == was[j])
  }

  lemma MountingGrows(was: map<Id, Book>, b0: map<Id, Book>, b1: map<Id, Book>, ids: seq<Id>, sizes: seq<Word>,
                      table: Table, id: Id, size: Word)
    requires Mounting(was, b0, ids, sizes, table, 0, None) && id !in b0
    requires b1.Keys == b0.Keys + {id} && (forall j <- b0 :: b1[j] == b0[j]) && HasChunk(b1, id, size, table, InFlight)
    ensures Mounting(was, b1, ids + [id], sizes + [size], table, 0, None)
  {
    forall i | 0 <= i < |ids| + 1 ensures ChunkAt(b1, ids + [id], sizes + [size], table, 0, None, i) {
      if i < |ids| { assert ChunkAt(b0, ids, sizes, table, 0, None, i); }
    }
  }

  lemma MountingMoves(was: map<Id, Book>, b0: map<Id, Book>, b1: map<Id, Book>, ids: seq<Id>, sizes: seq<Word>,
                      table: Table, n: nat, done: Option<Stage>)
    requires Mounting(was, b0, ids, sizes, table, n, done) && n < |ids| &&
             HasChunk(b0, ids[n], sizes[n], table, InFlight)
    requires b1 == b0[ids[n] := if done.None? then BLANK_BOOK else b0[ids[n]].WithStage(done.value)]
    ensures Mounting(was, b1, ids, sizes, table, n + 1, done)
  {
    var n' := n + 1;
    forall i | 0 <= i < |ids| ensures ChunkAt(b1, ids, sizes, table, n', done, i) {
      assert ChunkAt(b0, ids, sizes, table, n, done, i);
    }
  }

  /** A failed mount leaves blank books for the chunks it had mounted, and nothing else. */
  ghost predicate Blanked(was: map<Id, Book>, books: map<Id, Book>, n: nat, replies: nat -> ChunkReply) {
    && (forall j <- was :: j in books && books[j] == was[j])
    && (forall j <- books :: j in was || (books[j] == BLANK_BOOK && exists i :: 0 <= i < n && replies(i).id == j))
  }

  lemma RolledOut(was: map<Id, Book>, books: map<Id, Book>, ids: seq<Id>, sizes: seq<Word>, table: Table,
                  replies: nat -> ChunkReply)
    requires Mounting(was, books, ids, sizes, table, |ids|, None) && IdsOf(ids, replies)
    ensures Blanked(was, books, |ids|, replies)
  {
    forall j <- books | j !in was ensures books[j] == BLANK_BOOK && exists i :: 0 <= i < |ids| && replies(i).id == j {
      var i :| 0 <= i < |ids| && ids[i] == j;
      assert ChunkAt(books, ids, sizes, table, |ids|, None, i);
      assert replies(i).id == j;
    }
  }

  lemma MountSettles(was: map<Id, Book>, books: map<Id, Book>, ids: seq<Id>, sizes: seq<Word>, table: Table)
    requires Mounting(was, books, ids, sizes, table, |ids|, Some(Recorded)) && AllSettled(was)
    ensures AllSettled(books)
  {
    forall j <- books ensures books[j].Settled() {
      if j !in was {
        var i :| 0 <= i < |ids| && ids[i] == j;
        assert ChunkAt(books, ids, sizes, table, |ids|, Some(Recorded), i);
      }
    }
  }

  lemma NextIsFresh(was: map<Id, Book>, books: map<Id, Book>, ids: seq<Id>, sizes: seq<Word>, table: Table,
                    replies: nat -> ChunkReply)
    requires Mounting(was, books, ids, sizes, table, 0, None) && IdsOf(ids, replies) && FreshIds(replies, was.Keys)
    ensures replies(|ids|).id !in books
  {
  }

  lemma AddedAndRemoved<V>(before: map<Id, V>, between: map<Id, V>, id: Id)
    requires id !in before && between.Keys == before.Keys + {id} && forall j <- before :: between[j] == before[j]
    ensures between - {id} == before
  {
  }

  // ----- what the calls promise -----

  /** Everything was recorded and mounted. */
  ghost predicate Mounted(was: map<Id, Book>, books: map<Id, Book>, m: map<Id, Segment>, now: map<Id, Segment>,
                          total: Word, cap: Word, offset: Word, table: Table, replies: nat -> ChunkReply,
                          ids: seq<Id>, sizes: seq<Word>, offsets: seq<Word>)
  {
    && Mounting(was, books, ids, sizes, table, |ids|, Some(Recorded)) && Gained(m, now, ids, sizes, replies)
    && Cut(total, cap, offset, sizes, offsets) && IdsOf(ids, replies) && Remaining(total, cap, |sizes|) == 0
  }

  /** Some chunk after the first `tried` was not accepted, and everything was rolled back. */
  ghost predicate Unwound(was: map<Id, Book>, books: map<Id, Book>, m: map<Id, Segment>, now: map<Id, Segment>,
                          total: Word, cap: Word, maxMr: Word, replies: nat -> ChunkReply, tried: nat,
                          master: nat -> Option<ErrorCode>, unregistered: nat -> bool)
  {
    && Stops(m, total, cap, maxMr, replies, tried) && Remaining(total, cap, tried) > 0
    && Left(m, now, tried, total, cap, replies, master, unregistered) && Blanked(was, books, tried, replies)
  }

  /** The arguments mountSegment accepts. */
  predicate MountArgs(file: Option<Word>, offset: Word, size: Word, page: Word, maxMr: Word)
    requires page > 0
  {
    page <= maxMr && file.Some? && offset + size <= file.value && offset % page == 0
  }

  /**
   mountSegment on a client that is open or not: it succeeds exactly if the arguments are good and every
   chunk is accepted in its turn, and what it leaves of the tables in each case.
   */
  ghost predicate MountOutcome(was: Tables, now: Tables, open: bool, file: Option<Word>, offset: Word, size: Word,
                               page: Word, maxMr: Word, replies: nat -> ChunkReply, master: nat -> Option<ErrorCode>,
                               unregistered: nat -> bool, rc: int, ids: seq<Id>, sizes: seq<Word>, offsets: seq<Word>)
    requires page > 0
  {
    var cap, good := RoundDown(maxMr, page), open && MountArgs(file, offset, size, page, maxMr);
    && now.graceful == was.graceful && now.callbacks == was.callbacks
    && (rc == if good && AllAccepted(was.mounted, size, cap, maxMr, replies) then 0 else -1)
    && (rc == 0 ==>
          && Tiles(offsets, sizes, offset, size, page, maxMr)
          && Mounted(was.books, now.books, was.mounted, now.mounted, size, cap, offset, MappedTable, replies,
                     ids, sizes, offsets))
    && (rc == -1 ==> ids == [])
    && (rc == -1 && good ==>
          exists tried: nat :: Unwound(was.books, now.books, was.mounted, now.mounted, size, cap, maxMr, replies, tried,
                                       master, unregistered))
    && (!good ==> now == was)
  }

  /** The arguments allocateAndMountSegment accepts. */
  predicate AllocateArgs(size: Word, page: Word, slab: Word, maxMr: Word)
    requires page > 0 && slab > 0
  {
    size > 0 && page <= maxMr && slab <= RoundDown(maxMr, page) && size + slab - 1 < WORD_SPAN
  }

  /** allocateAndMountSegment, in the same way; it reports the size it allocated. */
  ghost predicate AllocateOutcome(was: Tables, now: Tables, open: bool, size: Word, page: Word, slab: Word, maxMr: Word,
                                  replies: nat -> ChunkReply, master: nat -> Option<ErrorCode>,
                                  unregistered: nat -> bool, rc: int, ids: seq<Id>, sizes: seq<Word>,
                                  granted: Option<Word>)
    requires page > 0 && slab > 0
  {
    && now.graceful == was.graceful && now.callbacks == was.callbacks && (rc == -1 ==> ids == [])
    && if !open || !AllocateArgs(size, page, slab, maxMr) then rc == -1 && granted == None && now == was else
         var cap, total := RoundDown(RoundDown(maxMr, page), slab), RoundDown(size + slab - 1, slab);
         && size <= total < size + slab
         && (rc == if AllAccepted(was.mounted, total, cap, maxMr, replies) then 0 else -1)
         && granted == (if rc == 0 then Some(total) else None)
         && (rc == 0 ==>
               Slabs(sizes, total, slab, maxMr) &&
               exists offsets :: Mounted(was.books, now.books, was.mounted, now.mounted, total, cap, 0, AllocatedTable,
                                         replies, ids, sizes, offsets))
         && (rc == -1 ==>
               exists tried: nat :: Unwound(was.books, now.books, was.mounted, now.mounted, total, cap, maxMr, replies,
                                            tried, master, unregistered))
  }

  /** unmountSegment and unmountAndFreeSegment: the first error, who leaves the map, and what is left of them. */
  ghost predicate UnmountOutcome(was: Tables, now: Tables, open: bool, ids: seq<Option<Id>>, graceSeconds: Word,
                                 table: Table, master: nat -> Option<ErrorCode>, unregistered: nat -> bool,
                                 error: Option<ErrorCode>)
  {
    if !open then error == Some(OtherError(-1)) && now == was else
      var atOnce, records := graceSeconds * 1000 % WORD_SPAN == 0, Records(was.books, table);
      var chosen := Chosen(ids, records);
      && error == (if !AllRecorded(ids, records) then Some(OtherError(-1))
                   else FirstError(chosen, was.mounted.Keys, atOnce, master, unregistered, |chosen|))
      && now.mounted.Keys == LeftAfter(chosen, was.mounted.Keys, atOnce, master, unregistered, |chosen|)
      && LeftBehind(was, now, atOnce) && Parked(was, now, atOnce, table)
  }

  /** No two entries of the list are the same. */
  ghost predicate Distinct(ids: seq<Option<Id>>) {
    forall i, j :: 0 <= i < j < |ids| ==> ids[i] != ids[j]
  }

  /** The id has a record in this table. */
  ghost predicate RecordAt(books: map<Id, Book>, id: Id, table: Table) {
    && id in books && books[id].block.Some?
    && books[id].block.value.stage == Recorded && books[id].block.value.table == table
  }

  /** An unmount list goes through exactly if its ids are recorded, mounted, named once and let go. */
  lemma ListUnmounts(books: map<Id, Book>, mounted: set<Id>, ids: seq<Option<Id>>, atOnce: bool, table: Table,
                     master: nat -> Option<ErrorCode>, unregistered: nat -> bool)
    ensures var records := Records(books, table);
            var chosen := Chosen(ids, records);
            (AllRecorded(ids, records) &&
             FirstError(chosen, mounted, atOnce, master, unregistered, |chosen|).None?) <==>
            && Distinct(ids)
            && forall i :: 0 <= i < |ids| ==>
                 && ids[i].Some? && RecordAt(books, ids[i].value, table) && ids[i].value in mounted
                 && master(i).None? && (atOnce ==> unregistered(i))
  {
    var records := Records(books, table);
    var chosen := Chosen(ids, records);
    ChosenIs(ids, records);
    NoErrorIff(chosen, mounted, atOnce, master, unregistered, |chosen|);
  }

  /** A timer task of an id, if one is queued. */
  ghost predicate TimerOutcome(was: Tables, now: Tables, id: Id, gone: bool, requeue: bool) {
    if id !in was.books || was.books[id].timer.None? then now == was else
      var found := id in was.graceful;
      var b := FiredBook(was.books[id], found, gone, requeue, Cleanup(was.callbacks, id));
      if gone && found
      then now == Tables(was.mounted, was.graceful - {id}, was.callbacks - {id}, was.books[id := b])
      else now == was.(books := was.books[id := b])
  }

  /** What a loop's counters become when a chunk has been cut off. */
  method Advance(ghost total: Word, cap: Word, ghost offset: Word, ghost n: nat, remaining: Word, current: Word)
    returns (left: Word, after: Word)
    requires cap > 0 && remaining > 0 && offset + total < WORD_SPAN
    requires remaining == Remaining(total, cap, n) && current == OffsetOf(offset, total, cap, n)
    ensures left == Remaining(total, cap, n + 1) < remaining && after == OffsetOf(offset, total, cap, n + 1)
  {
    var size := if remaining < cap then remaining else cap;
    left, after := remaining - size, current + size;
  }

  class Client {
    var mounted: map<Id, Segment>
    var graceful: map<Id, Segment>
    var callbacks: map<Id, Table>
    var books: map<Id, Book>               // one entry per id that was ever mounted
    var next: nat                          // name of the next piece of memory
    var log: Log<nat>
    var closed: bool

    ghost predicate Valid()
      reads this
    {
      mounted.Keys <= books.Keys && graceful.Keys <= books.Keys && callbacks.Keys <= books.Keys
    }

    ghost function Now(): Tables
      reads this
    {
      Tables(mounted, graceful, callbacks, books)
    }

    ghost function ViewAt(id: Id): View
      reads this
      requires id in books
    {
      ViewOf(Now(), id)
    }

    ghost function State(): State
      reads this
    {
      SegmentSpec.State(map id | id in books :: ViewAt(id), next, log, closed)
    }

    constructor ()
      ensures Valid() && State() == START && Now() == NO_TABLES && !closed
    {
      mounted, graceful, callbacks, books := map[], map[], map[], map[];
      next, log, closed := 0, Fresh, false;
    }

    // ----- books -----

    /** Sets what is booked for an id, leaving the three tables alone. */
    method SetBook(id: Id, b: Book, l: Log<nat>)
      requires Valid() && id in books
      modifies this`books, this`log
      ensures Valid() && books == old(books)[id := b] && log == l
      ensures State() == old(State()).(views := old(State()).views[id := ViewAt(id)], log := l)
    {
      ghost var before := State();
      books, log := books[id := b], l;
      assert State().views == before.views[id := ViewAt(id)];
    }

    /** Books memory for a new id. */
    method AddBook(id: Id, b: Book, l: Log<nat>)
      requires Valid() && id !in books
      modifies this`books, this`log, this`next
      ensures Valid() && books == old(books)[id := b] && next == old(next) + 1 && log == l
      ensures id !in mounted && id !in graceful && id !in callbacks
      ensures State() == old(State()).(views := old(State()).views[id := ViewAt(id)], next := next, log := l)
    {
      ghost var before := State();
      books, next, log := books[id := b], next + 1, l;
      assert State().views == before.views[id := ViewAt(id)];
    }

    /** The chunk was refused: its memory goes back and its id was never handed out. */
    method RemoveBook(id: Id, l: Log<nat>)
      requires Valid() && id in books && id !in mounted && id !in graceful && id !in callbacks
      modifies this`books, this`log
      ensures Valid() && books == old(books) - {id} && log == l
      ensures State() == old(State()).(views := old(State()).views - {id}, log := l)
    {
      ghost var before := State();
      books, log := books - {id}, l;
      assert State().views == before.views - {id};
    }

    // ----- mounting one chunk -----

    /** The overlap loop of MountSegmentAndGetId. */
    method Overlaps(base: Word, size: Word) returns (hit: bool)
      ensures hit <==> exists id :: id in mounted && Collide(mounted[id], base, size)
    {
      var rest := mounted.Keys;
      while rest != {}
        invariant rest <= mounted.Keys
        invariant forall id :: id in mounted && id !in rest ==> !Collide(mounted[id], base, size)
        decreases |rest|
      {
        var id :| id in rest;
        if Collide(mounted[id], base, size) {
          return true;
        }
        rest := rest - {id};
      }
      return false;
    }

    method MountSegmentAndGetId(base: Word, size: Word, maxMr: Word, r: ChunkReply)
      returns (result: Result<Id, ErrorCode>)
      requires Valid() && r.id in books && r.id !in mounted
      modifies this`mounted
      ensures Valid()
      ensures result.Ok? <==>
              && base != 0 && size != 0 && size <= maxMr && r.registered && r.master.None?
              && forall id <- old(mounted) :: !Collide(old(mounted)[id], base, size)
      ensures result.Ok? ==> result.value == r.id && mounted == old(mounted)[r.id := Segment(base, size)]
      ensures result.Err? ==> mounted == old(mounted)
      ensures State() == old(State()).(views := old(State()).views[r.id := ViewAt(r.id)])
    {
      ghost var before := State();
      assert before.views == before.views[r.id := ViewAt(r.id)];
      if base == 0 || size == 0 || size > maxMr {
        return Err(InvalidParams);
      }
      var hit := Overlaps(base, size);
      if hit {
        return Err(InvalidParams);
      }
      if !r.registered {
        return Err(InvalidParams);
      }
      if r.master.Some? {
        return Err(r.master.value);
      }
      mounted := mounted[r.id := Segment(base, size)];
      assert State().views == before.views[r.id := ViewAt(r.id)];
      return Ok(r.id);
    }

    lemma FreeMeans(base: Word, size: Word)
      requires Valid()
      ensures Free(State(), base, size) <==> forall id <- mounted :: !Collide(mounted[id], base, size)
    {
      var s := State();
      assert forall id <- mounted :: id in s.views && s.views[id].mounted == Some(mounted[id]);
      assert forall id <- s.views :: s.views[id].mounted.Some? ==>
               id in mounted && s.views[id].mounted.value == mounted[id];
    }

    /** Acquires memory for a chunk and mounts it; on failure the memory is given back at once. */
    method MountOne(table: Table, size: Word, maxMr: Word, r: ChunkReply) returns (ok: bool, ghost act: Action)
      requires Valid() && !closed && r.id !in books && Available(r, size)
      modifies this`mounted, this`books, this`next, this`log
      ensures Valid() && !closed && act == MountChunk(r.id, table, BaseOf(r), size, maxMr, r.registered, r.master.None?)
      ensures Plausible(old(State()), act) && State() == Step(old(State()), act)
      ensures ok <==> Accepts(old(mounted), r, size, maxMr)
      ensures mounted == if ok then old(mounted)[r.id := Segment(BaseOf(r), size)] else old(mounted)
      ensures books == if ok then old(books)[r.id := ChunkBook(old(next), table, BaseOf(r), size)] else old(books)
    {
      act := MountChunk(r.id, table, BaseOf(r), size, maxMr, r.registered, r.master.None?);
      ghost var before := State();
      FreeMeans(BaseOf(r), size);
      var name := next;
      AddBook(r.id, ChunkBook(name, table, BaseOf(r), size), Acquired(log, name));
      var result := MountSegmentAndGetId(BaseOf(r), size, maxMr, r);
      ok := result.Ok?;
      if !ok {
        AddedAndRemoved(before.views, State().views, r.id);
        AddedAndRemoved(old(books), books, r.id);
        RemoveBook(r.id, Released(log, name));
      }
      OneViewAdded(before, act, State(), ok);
    }

    // ----- chunked mounting -----

    /** One pass of a mount loop. */
    method MountNext(size: Word, table: Table, maxMr: Word, r: ChunkReply, ghost was: map<Id, Book>, ghost ids: seq<Id>,
                     ghost sizes: seq<Word>, ghost start: State, ghost acts: seq<Action>)
      returns (ok: bool, ghost acts': seq<Action>)
      requires Valid() && !closed && r.id !in books && Mounting(was, books, ids, sizes, table, 0, None)
      requires Leads(start, acts, State())
      modifies this`mounted, this`books, this`next, this`log
      ensures Valid() && !closed && Leads(start, acts', State())
      ensures ok <==> Accepts(old(mounted), r, size, maxMr)
      ensures mounted == if ok then old(mounted)[r.id := Segment(BaseOf(r), size)] else old(mounted)
      ensures ok ==> Mounting(was, books, ids + [r.id], sizes + [size], table, 0, None)
      ensures !ok ==> books == old(books)
    {
      ok, acts' := false, acts;
      if !Available(r, size) {
        return;
      }
      ghost var act;
      ghost var before := State();
      ok, act := MountOne(table, size, maxMr, r);
      LeadsOne(start, acts, before, act, State());
      acts' := acts + [act];
      if ok {
        MountingGrows(was, old(books), books, ids, sizes, table, r.id, size);
      }
    }

    /** The invariant of both mount loops, from the books, the map and the state they started in. */
    ghost predicate InLoop(was: map<Id, Book>, m: map<Id, Segment>, start: State, total: Word, cap: Word, offset: Word,
                           table: Table, maxMr: Word, replies: nat -> ChunkReply, ids: seq<Id>, sizes: seq<Word>,
                           offsets: seq<Word>, acts: seq<Action>)
      reads this
    {
      && Valid() && !closed && Leads(start, acts, State()) && Mounting(was, books, ids, sizes, table, 0, None)
      && Loop(m, mounted, total, cap, offset, maxMr, replies, ids, sizes, offsets)
    }

    /** One pass: the next chunk is mounted at the current offset, or it is not accepted. */
    method MountPass(total: Word, cap: Word, offset: Word, table: Table, maxMr: Word, replies: nat -> ChunkReply,
                     ids: seq<Id>, sizes: seq<Word>, offsets: seq<Word>, remaining: Word, current: Word,
                     ghost was: map<Id, Book>, ghost m: map<Id, Segment>, ghost start: State, ghost acts: seq<Action>)
      returns (ok: bool, ids': seq<Id>, sizes': seq<Word>, offsets': seq<Word>, ghost acts': seq<Action>)
      requires InLoop(was, m, start, total, cap, offset, table, maxMr, replies, ids, sizes, offsets, acts)
      requires FreshIds(replies, was.Keys) && cap > 0 && remaining > 0
      requires remaining == Remaining(total, cap, |ids|) && current == OffsetOf(offset, total, cap, |ids|)
      modifies this`mounted, this`books, this`next, this`log
      ensures InLoop(was, m, start, total, cap, offset, table, maxMr, replies, ids', sizes', offsets', acts')
      ensures |ids'| == if ok then |ids| + 1 else |ids|
      ensures ok <==> ChunkAccepted(m, total, cap, maxMr, replies, |ids|)
    {
      ids', sizes', offsets' := ids, sizes, offsets;
      var size: Word := if remaining < cap then remaining else cap;
      var r := replies(|ids|);
      NextIsFresh(was, books, ids, sizes, table, replies);
      ok, acts' := MountNext(size, table, maxMr, r, was, ids, sizes, start, acts);
      if ok {
        LoopGrows(m, old(mounted), total, cap, offset, maxMr, replies, ids, sizes, offsets, current);
        ids', sizes', offsets' := ids + [r.id], sizes + [size], offsets + [current];
      }
    }

    /**
     Both mount loops: cut the total into chunks, acquire and mount them one by one at growing offsets,
     stop at the first chunk that is not accepted.
     */
    method MountChunks(total: Word, cap: Word, offset: Word, table: Table, maxMr: Word, replies: nat -> ChunkReply)
      returns (remaining: Word, ids: seq<Id>, sizes: seq<Word>, offsets: seq<Word>, ghost acts: seq<Action>)
      requires Valid() && !closed && cap > 0 && offset + total < WORD_SPAN && FreshIds(replies, books.Keys)
      modifies this`mounted, this`books, this`next, this`log
      ensures InLoop(old(books), old(mounted), old(State()), total, cap, offset, table, maxMr, replies, ids, sizes,
                     offsets, acts)
      ensures remaining == Remaining(total, cap, |ids|)
      ensures Stops(old(mounted), total, cap, maxMr, replies, |ids|)
    {
      ghost var was, m, start := books, mounted, State();
      remaining, ids, sizes, offsets, acts := total, [], [], [], [];
      var current := offset;
      while remaining > 0
        invariant InLoop(was, m, start, total, cap, offset, table, maxMr, replies, ids, sizes, offsets, acts)
        invariant remaining == Remaining(total, cap, |ids|) && current == OffsetOf(offset, total, cap, |ids|)
        decreases remaining
      {
        var left, after := Advance(total, cap, offset, |ids|, remaining, current);
        var ok;
        ok, ids, sizes, offsets, acts :=
          MountPass(total, cap, offset, table, maxMr, replies, ids, sizes, offsets, remaining, current,
                    was, m, start, acts);
        if !ok {
          break;
        }
        remaining, current := left, after;
      }
    }

    // ----- rolling back and recording -----

    /**
     UnmountSegmentImpl behind the lookup: the master first, then the transfer engine, then the map.
     Nothing changes unless both let go.
     */
    method TryUnmount(id: Id, master: Option<ErrorCode>, unregistered: bool) returns (error: Option<ErrorCode>)
      requires Valid()
      modifies this`mounted
      ensures Valid() && error == UnmountError(id, old(mounted).Keys, true, master, unregistered)
      ensures mounted == if error.None? then old(mounted) - {id} else old(mounted)
      ensures id in books ==> State() == old(State()).(views := old(State()).views[id := ViewAt(id)])
      ensures error.Some? ==> State() == old(State())
    {
      ghost var before := State();
      assert id in books ==> before.views == before.views[id := ViewAt(id)];
      if id !in mounted {
        return Some(InvalidParams);
      }
      if master.Some? {
        return master;
      }
      if !unregistered {
        return Some(InternalError);
      }
      mounted := mounted - {id};
      assert State().views == before.views[id := ViewAt(id)];
      return None;
    }

    /** Rollback of one chunk: it is unmounted if that is granted, and its memory goes in any case. */
    method RollBackOne(id: Id, master: Option<ErrorCode>, unregistered: bool) returns (ghost acts: seq<Action>)
      requires Valid() && !closed && id in books && id in mounted
      requires books[id].Staged(InFlight) && books[id] == BLANK_BOOK.(block := books[id].block)
      modifies this`mounted, this`books, this`log
      ensures Valid() && !closed && Leads(old(State()), acts, State())
      ensures acts == [RollbackUnmount(id, UnmountOk(master, unregistered)), RollbackRelease(id)]
      ensures books == old(books)[id := BLANK_BOOK]
      ensures mounted == if UnmountOk(master, unregistered) then old(mounted) - {id} else old(mounted)
    {
      ghost var a, b := RollbackUnmount(id, UnmountOk(master, unregistered)), RollbackRelease(id);
      ghost var start := State();
      RollBackUnmount(id, master, unregistered);
      ghost var middle := State();
      LeadsOne(start, [], start, a, middle);
      assert [] + [a] == [a];
      SetTwice(old(books), id, books[id], BLANK_BOOK);
      SetBook(id, BLANK_BOOK, Released(log, books[id].block.value.name));
      OneViewChanged(middle, b, State());
      LeadsOne(start, [a], middle, b, State());
      assert [a] + [b] == [a, b];
      acts := [a, b];
    }

    method RollBackUnmount(id: Id, master: Option<ErrorCode>, unregistered: bool)
      requires Valid() && !closed && id in books && id in mounted && books[id].Staged(InFlight)
      modifies this`mounted, this`books, this`log
      ensures Valid() && !closed && State() == Step(old(State()), RollbackUnmount(id, UnmountOk(master, unregistered)))
      ensures books == old(books)[id := old(books)[id].WithStage(RolledBack)]
      ensures mounted == if UnmountOk(master, unregistered) then old(mounted) - {id} else old(mounted)
    {
      ghost var before := State();
      var _ := TryUnmount(id, master, unregistered);
      SetBook(id, books[id].WithStage(RolledBack), log);
      OneViewChanged(before, RollbackUnmount(id, UnmountOk(master, unregistered)), State());
    }

    /** The first n chunks have been rolled back, from the map and the state the rollback started in. */
    ghost predicate InRollback(was: map<Id, Book>, m: map<Id, Segment>, start: State, ids: seq<Id>, sizes: seq<Word>,
                               table: Table, master: nat -> Option<ErrorCode>, unregistered: nat -> bool, n: nat,
                               acts: seq<Action>)
      reads this
    {
      && Valid() && !closed && Leads(start, acts, State()) && Mounting(was, books, ids, sizes, table, n, None)
      && n <= |ids| && mounted == RolledMap(m, ids, n, master, unregistered)
    }

    method RollBackNext(ids: seq<Id>, i: nat, master: nat -> Option<ErrorCode>, unregistered: nat -> bool,
                        ghost sizes: seq<Word>, ghost table: Table, ghost was: map<Id, Book>, ghost m: map<Id, Segment>,
                        ghost start: State, ghost acts: seq<Action>)
      returns (ghost acts': seq<Action>)
      requires InRollback(was, m, start, ids, sizes, table, master, unregistered, i, acts) && i < |ids|
      requires forall k :: 0 <= k < |ids| ==> ids[k] in m
      modifies this`mounted, this`books, this`log
      ensures InRollback(was, m, start, ids, sizes, table, master, unregistered, i + 1, acts')
    {
      ghost var before := State();
      assert ChunkAt(books, ids, sizes, table, i, None, i);
      RolledMapIs(m, ids, i, master, unregistered);
      ghost var more;
      more := RollBackOne(ids[i], master(i), unregistered(i));
      MountingMoves(was, old(books), books, ids, sizes, table, i, None);
      LeadsOn(start, acts, before, more, State());
      acts' := acts + more;
    }

    /** Rollback of everything mounted so far. */
    method RollBack(ids: seq<Id>, ghost sizes: seq<Word>, ghost table: Table, master: nat -> Option<ErrorCode>,
                    unregistered: nat -> bool, ghost was: map<Id, Book>)
      returns (ghost acts: seq<Action>)
      requires Valid() && !closed && Mounting(was, books, ids, sizes, table, 0, None)
      requires forall i :: 0 <= i < |ids| ==> ids[i] in mounted
      modifies this`mounted, this`books, this`log
      ensures InRollback(was, old(mounted), old(State()), ids, sizes, table, master, unregistered, |ids|, acts)
    {
      ghost var m, start := mounted, State();
      acts := [];
      for i := 0 to |ids|
        invariant InRollback(was, m, start, ids, sizes, table, master, unregistered, i, acts)
      {
        acts := RollBackNext(ids, i, master, unregistered, sizes, table, was, m, start, acts);
      }
    }

    /** A mounted chunk becomes a record. */
    method Record(id: Id) returns (ghost act: Action)
      requires Valid() && !closed && id in books && books[id].Staged(InFlight)
      modifies this`books, this`log
      ensures Valid() && act == Commit(id) && State() == Step(old(State()), act)
      ensures books == old(books)[id := old(books)[id].WithStage(Recorded)]
    {
      ghost var before := State();
      act := Commit(id);
      SetBook(id, books[id].WithStage(Recorded), log);
      OneViewChanged(before, act, State());
    }

    method RecordAll(ids: seq<Id>, ghost sizes: seq<Word>, ghost table: Table, ghost was: map<Id, Book>)
      returns (ghost acts: seq<Action>)
      requires Valid() && !closed && Mounting(was, books, ids, sizes, table, 0, None)
      modifies this`books, this`log
      ensures Valid() && Leads(old(State()), acts, State())
      ensures Mounting(was, books, ids, sizes, table, |ids|, Some(Recorded))
    {
      ghost var start := State();
      acts := [];
      for i := 0 to |ids|
        invariant Valid() && Leads(start, acts, State())
        invariant Mounting(was, books, ids, sizes, table, i, Some(Recorded))
      {
        ghost var b0, s0 := books, State();
        assert ChunkAt(books, ids, sizes, table, i, Some(Recorded), i);
        var a := Record(ids[i]);
        MountingMoves(was, b0, books, ids, sizes, table, i, Some(Recorded));
        LeadsOne(start, acts, s0, a, State());
        acts := acts + [a];
      }
    }

    // ----- the two mount calls -----

    /** All chunks are mounted. */
    method Finish(ids: seq<Id>, ghost sizes: seq<Word>, ghost offsets: seq<Word>, ghost total: Word, ghost cap: Word,
                  ghost offset: Word, ghost table: Table, ghost maxMr: Word, ghost replies: nat -> ChunkReply,
                  ghost was: map<Id, Book>, ghost m: map<Id, Segment>, ghost start: State, ghost acts: seq<Action>)
      returns (ghost acts': seq<Action>)
      requires InLoop(was, m, start, total, cap, offset, table, maxMr, replies, ids, sizes, offsets, acts)
      requires FreshIds(replies, m.Keys) && Remaining(total, cap, |ids|) == 0
      modifies this`books, this`log
      ensures Valid() && !closed && Leads(start, acts', State())
      ensures Mounted(was, books, m, mounted, total, cap, offset, table, replies, ids, sizes, offsets)
    {
      ghost var middle := State();
      MountedAfterGains(m, total, cap, replies, ids, sizes);
      ghost var more;
      more := RecordAll(ids, sizes, table, was);
      LeadsOn(start, acts, middle, more, State());
      acts' := acts + more;
    }

    /** Some chunk was not accepted. */
    method GiveUp(ids: seq<Id>, master: nat -> Option<ErrorCode>, unregistered: nat -> bool, ghost sizes: seq<Word>,
                  ghost offsets: seq<Word>, ghost total: Word, ghost cap: Word, ghost offset: Word, ghost table: Table,
                  ghost maxMr: Word, ghost replies: nat -> ChunkReply, ghost was: map<Id, Book>,
                  ghost m: map<Id, Segment>, ghost start: State, ghost acts: seq<Action>)
      returns (ghost acts': seq<Action>)
      requires InLoop(was, m, start, total, cap, offset, table, maxMr, replies, ids, sizes, offsets, acts)
      requires FreshIds(replies, m.Keys) && Stops(m, total, cap, maxMr, replies, |ids|) &&
               Remaining(total, cap, |ids|) > 0
      modifies this`mounted, this`books, this`log
      ensures Valid() && !closed && Leads(start, acts', State())
      ensures Unwound(was, books, m, mounted, total, cap, maxMr, replies, |ids|, master, unregistered)
    {
      ghost var middle, top := State(), mounted;
      MountedAfterGains(m, total, cap, replies, ids, sizes);
      ghost var more;
      more := RollBack(ids, sizes, table, master, unregistered, was);
      GainedThenDropped(m, top, mounted, ids, sizes, total, cap, replies, master, unregistered);
      RolledOut(was, books, ids, sizes, table, replies);
      LeadsOn(start, acts, middle, more, State());
      acts' := acts + more;
    }

    /**
     Both mount calls once their sizes are fixed. `tried` is the number of chunks that were mounted; the
     call succeeds exactly if every chunk the total needs is accepted in its turn.
     */
    method MountAll(total: Word, cap: Word, offset: Word, table: Table, maxMr: Word, replies: nat -> ChunkReply,
                    master: nat -> Option<ErrorCode>, unregistered: nat -> bool)
      returns (ok: bool, ids: seq<Id>, sizes: seq<Word>, offsets: seq<Word>, ghost tried: nat, ghost acts: seq<Action>)
      requires Valid() && !closed && cap > 0 && offset + total < WORD_SPAN && FreshIds(replies, books.Keys)
      modifies this`mounted, this`books, this`next, this`log
      ensures Valid() && !closed && Leads(old(State()), acts, State())
      ensures ok <==> AllAccepted(old(mounted), total, cap, maxMr, replies)
      ensures ok ==>
                Mounted(old(books), books, old(mounted), mounted, total, cap, offset, table, replies, ids, sizes,
                        offsets)
      ensures !ok ==> ids == []
      ensures !ok ==>
                Unwound(old(books), books, old(mounted), mounted, total, cap, maxMr, replies, tried, master,
                        unregistered)
    {
      var remaining;
      remaining, ids, sizes, offsets, acts := MountChunks(total, cap, offset, table, maxMr, replies);
      tried, ok := |ids|, remaining == 0;
      StopsAtEndIff(old(mounted), total, cap, maxMr, replies, tried);
      if ok {
        acts := Finish(ids, sizes, offsets, total, cap, offset, table, maxMr, replies,
                       old(books), old(mounted), old(State()), acts);
      } else {
        acts := GiveUp(ids, master, unregistered, sizes, offsets, total, cap, offset, table, maxMr, replies,
                       old(books), old(mounted), old(State()), acts);
        ids, sizes, offsets := [], [], [];
      }
    }

    /**
     mountSegment: maps a page-aligned range of a file in chunks of whole pages. All or nothing: on
     success the chunks tile the range and exactly they are new in the map; on failure every chunk is
     released and only those whose unmount was refused stay in the map.
     */
    method MountSegment(file: Option<Word>, offset: Word, size: Word, page: Word, maxMr: Word,
                        replies: nat -> ChunkReply, master: nat -> Option<ErrorCode>, unregistered: nat -> bool)
      returns (rc: int, ids: seq<Id>, sizes: seq<Word>, offsets: seq<Word>, ghost acts: seq<Action>)
      requires Valid() && page > 0 && FreshIds(replies, books.Keys)
      modifies this`mounted, this`books, this`next, this`log
      ensures Valid() && closed == old(closed) && Leads(old(State()), acts, State())
      ensures MountOutcome(old(Now()), Now(), !closed, file, offset, size, page, maxMr, replies, master, unregistered,
                           rc, ids, sizes, offsets)
      ensures rc == 0 || rc == -1
      ensures rc == 0 <==>
              && !closed && page <= maxMr && file.Some? && offset + size <= file.value && offset % page == 0
              && AllAccepted(old(mounted), size, RoundDown(maxMr, page), maxMr, replies)
    {
      rc, ids, sizes, offsets, acts := -1, [], [], [], [];
      if closed || maxMr == 0 || maxMr < page || file.None? {
        return;
      }
      if offset > file.value || size > file.value - offset || offset % page != 0 {
        return;
      }
      var cap := RoundDown(maxMr, page);
      var ok;
      ghost var tried;
      ok, ids, sizes, offsets, tried, acts := MountAll(size, cap, offset, MappedTable, maxMr, replies, master,
                                                       unregistered);
      if ok {
        CutTiles(sizes, offsets, cap, offset, size, page, maxMr);
        rc := 0;
      }
    }

    /**
     allocateAndMountSegment: allocates the least number of whole slabs that hold the size, in chunks of
     whole slabs. All or nothing, like mountSegment.
     */
    method AllocateAndMountSegment(size: Word, page: Word, slab: Word, maxMr: Word, replies: nat -> ChunkReply,
                                   master: nat -> Option<ErrorCode>, unregistered: nat -> bool)
      returns (rc: int, ids: seq<Id>, sizes: seq<Word>, granted: Option<Word>, ghost acts: seq<Action>)
      requires Valid() && page > 0 && slab > 0 && FreshIds(replies, books.Keys)
      modifies this`mounted, this`books, this`next, this`log
      ensures Valid() && closed == old(closed) && Leads(old(State()), acts, State())
      ensures AllocateOutcome(old(Now()), Now(), !closed, size, page, slab, maxMr, replies, master, unregistered,
                              rc, ids, sizes, granted)
      ensures rc == 0 || rc == -1
      ensures rc == 0 <==>
              && !closed && size > 0 && page <= maxMr && slab <= RoundDown(maxMr, page) && size + slab - 1 < WORD_SPAN
              && AllAccepted(old(mounted), RoundDown(size + slab - 1, slab), RoundDown(RoundDown(maxMr, page), slab),
                             maxMr, replies)
      ensures rc == 0 ==> granted == Some(RoundDown(size + slab - 1, slab))
    {
      rc, ids, sizes, granted, acts := -1, [], [], None, [];
      if closed || maxMr == 0 || size == 0 || maxMr < page {
        return;
      }
      var pages := RoundDown(maxMr, page);
      if pages < slab {
        return;
      }
      var cap := RoundDown(pages, slab);
      if size > WORD_SPAN - 1 - (slab - 1) {
        return;
      }
      var total := RoundDown(size + slab - 1, slab);
      var ok, offsets;
      ghost var tried;
      ok, ids, sizes, offsets, tried, acts := MountAll(total, cap, 0, AllocatedTable, maxMr, replies, master,
                                                       unregistered);
      if ok {
        CutSlabs(sizes, offsets, cap, total, slab, maxMr);
        rc, granted := 0, Some(total);
      }
    }

    // ----- unmounting one id -----

    /**
     UnmountSegmentById. Without a grace period the segment leaves the map at once; with one it moves to
     the graceful map, its cleanup is stored and a timer task with three retries is queued.
     */
    method UnmountSegmentById(id: Id, graceMs: Word, cleanup: Table, master: Option<ErrorCode>, unregistered: bool)
      returns (error: Option<ErrorCode>, ghost act: Action)
      requires Valid() && !closed && (id in books ==> !books[id].Staged(InFlight) && !books[id].Staged(RolledBack))
      modifies this`mounted, this`graceful, this`callbacks, this`books, this`log
      ensures Valid() && !closed
      ensures act == if graceMs == 0 then Unmount(id, UnmountOk(master, unregistered))
              else Graceful(id, cleanup, master.None?)
      ensures Plausible(old(State()), act) && State() == Step(old(State()), act)
      ensures error == UnmountError(id, old(mounted).Keys, graceMs == 0, master, unregistered)
      ensures error.None? <==> id in old(mounted) && master.None? && (graceMs == 0 ==> unregistered)
      ensures error.Some? ==> error == if id !in old(mounted) then Some(InvalidParams) else
                                       if master.Some? then master else Some(InternalError)
      ensures mounted == if error.None? then old(mounted) - {id} else old(mounted)
      ensures error.Some? ==> books == old(books)
      ensures error.None? ==>
                id in old(books) && books == old(books)[id := if graceMs == 0 then ClearedBook(old(books)[id])
                                                        else old(books)[id].(timer := Some(3))]
      ensures Parked(old(Now()), Now(), graceMs == 0, cleanup)
    {
      act := if graceMs == 0 then Unmount(id, UnmountOk(master, unregistered)) else Graceful(id, cleanup, master.None?);
      if graceMs == 0 {
        error := UnmountAtOnce(id, master, unregistered);
        return;
      }
      if id !in mounted {
        return Some(InvalidParams), act;
      }
      if master.Some? {
        return master, act;
      }
      StartGraceful(id, cleanup);
      error := None;
    }

    method UnmountAtOnce(id: Id, master: Option<ErrorCode>, unregistered: bool) returns (error: Option<ErrorCode>)
      requires Valid() && !closed
      modifies this`mounted, this`books, this`log
      ensures Valid() && !closed && State() == Step(old(State()), Unmount(id, UnmountOk(master, unregistered)))
      ensures error == UnmountError(id, old(mounted).Keys, true, master, unregistered)
      ensures mounted == if error.None? then old(mounted) - {id} else old(mounted)
      ensures error.Some? ==> books == old(books)
      ensures error.None? ==> id in old(books) && books == old(books)[id := ClearedBook(old(books)[id])]
    {
      ghost var before := State();
      error := TryUnmount(id, master, unregistered);
      if error.None? {
        SetBook(id, ClearedBook(books[id]), log);
        assert State() == Step(before, Unmount(id, true)) by {
          assert ViewAt(id) == ViewStep(before.views[id], Unmount(id, true), false, next);
          OneViewChanged(before, Unmount(id, true), State());
        }
      } else {
        NothingUnmounted(before, id, UnmountOk(master, unregistered));
      }
    }

    method StartGraceful(id: Id, cleanup: Table)
      requires Valid() && !closed && id in mounted
      modifies this`mounted, this`graceful, this`callbacks, this`books, this`log
      ensures Valid() && !closed && mounted == old(mounted) - {id}
      ensures books == old(books)[id := old(books)[id].(timer := Some(3))]
      ensures graceful == old(graceful)[id := old(mounted)[id]] && callbacks == old(callbacks)[id := cleanup]
      ensures State() == Step(old(State()), Graceful(id, cleanup, true))
    {
      ghost var before := State();
      MoveToGraceful(id, cleanup);
      SetBook(id, books[id].(timer := Some(3)), log);
      assert State() == Step(before, Graceful(id, cleanup, true)) by {
        assert State().views == before.views[id := ViewAt(id)];
        assert ViewAt(id) == ViewStep(before.views[id], Graceful(id, cleanup, true), false, next);
        OneViewChanged(before, Graceful(id, cleanup, true), State());
      }
    }

    method MoveToGraceful(id: Id, cleanup: Table)
      requires Valid() && id in mounted
      modifies this`mounted, this`graceful, this`callbacks
      ensures Valid() && mounted == old(mounted) - {id}
      ensures graceful == old(graceful)[id := old(mounted)[id]] && callbacks == old(callbacks)[id := cleanup]
      ensures State() == old(State()).(views := old(State()).views[id := ViewAt(id)])
    {
      ghost var before := State();
      graceful := graceful[id := mounted[id]];
      callbacks := callbacks[id := cleanup];
      mounted := mounted - {id};
      assert State().views == before.views[id := ViewAt(id)];
    }

    // ----- timers and cleanups -----

    /** The first locked half of OnGracefulUnmountTimer: whether there is still something to ask the master about. */
    method WakeTimer(id: Id) returns (ask: bool)
      requires Valid() && !closed && id in books && books[id].timer.Some? && !books[id].asking
      modifies this`books, this`log
      ensures Valid() && State() == Step(old(State()), TimerWake(id)) && ask == (id in graceful)
      ensures books == old(books)[id := if ask then old(books)[id].(asking := true, polls := old(books)[id].polls + 1)
                                        else old(books)[id].(timer := None)]
    {
      ghost var before := State();
      var b := books[id];
      ask := id in graceful;
      SetBook(id, if ask then b.(asking := true, polls := b.polls + 1) else b.(timer := None), log);
      OneViewChanged(before, TimerWake(id), State());
    }

    /**
     What OnGracefulUnmountTimer does with the answer: if the master has removed the segment it leaves the
     graceful map and its cleanup is taken out to run; otherwise the task is queued again while retries are left.
     */
    method AnswerTimer(id: Id, gone: bool, requeue: bool)
      requires Valid() && !closed && id in books && books[id].timer.Some? && books[id].asking
      modifies this`graceful, this`callbacks, this`books, this`log
      ensures Valid() && State() == Step(old(State()), TimerAnswer(id, gone, requeue))
      ensures books == old(books)[id := AnsweredBook(old(books)[id], gone, requeue, Cleanup(old(callbacks), id))]
      ensures graceful == if gone then old(graceful) - {id} else old(graceful)
      ensures callbacks == if gone then old(callbacks) - {id} else old(callbacks)
    {
      ghost var before := State();
      var b := AnsweredBook(books[id], gone, requeue, Cleanup(callbacks, id));
      Answered(id, b, gone);
      OneViewChanged(before, TimerAnswer(id, gone, requeue), State());
    }

    /** Books the answer and, if the segment is gone, takes it out of both tables. */
    method Answered(id: Id, b: Book, gone: bool)
      requires Valid() && id in books
      modifies this`graceful, this`callbacks, this`books, this`log
      ensures Valid() && books == old(books)[id := b] && log == old(log)
      ensures graceful == if gone then old(graceful) - {id} else old(graceful)
      ensures callbacks == if gone then old(callbacks) - {id} else old(callbacks)
      ensures State() == old(State()).(views := old(State()).views[id := ViewAt(id)])
    {
      ghost var before := State();
      if gone {
        graceful, callbacks := graceful - {id}, callbacks - {id};
      }
      books := books[id := b];
      assert State().views == before.views[id := ViewAt(id)];
    }

    /** The locked half of a cleanup: its record, if its table still has it, is taken out. */
    method TakeRecord(id: Id)
      requires Valid() && !closed && id in books && books[id].running.Some?
      modifies this`books, this`log
      ensures Valid() && State() == Step(old(State()), Callback(id)) &&
              books == old(books)[id := TakenBook(old(books)[id])]
    {
      ghost var before := State();
      SetBook(id, TakenBook(books[id]), log);
      OneViewChanged(before, Callback(id), State());
    }

    /** munmap or free of a record that was taken out. */
    method ReleaseRecord(id: Id)
      requires Valid() && !closed && id in books
      modifies this`books, this`log
      ensures Valid() && State() == Step(old(State()), ReleaseBlock(id))
      ensures books == old(books)[id := ReleasedBook(old(books)[id])]
    {
      if books[id].Staged(Detached) {
        ghost var before := State();
        SetBook(id, books[id].(block := None), Released(log, books[id].block.value.name));
        OneViewChanged(before, ReleaseBlock(id), State());
      }
    }

    /**
     OnGracefulUnmountTimer for a queued task, from the lookup to the end of the cleanup: one status query
     at most; if the master has removed the segment, the record of the cleanup's own table is released.
     */
    method OnGracefulUnmountTimer(id: Id, gone: bool, requeue: bool) returns (ghost acts: seq<Action>)
      requires Valid() && !closed && id in books && books[id].timer.Some? && !books[id].asking &&
               books[id].running.None?
      modifies this`graceful, this`callbacks, this`books, this`log
      ensures Valid() && Leads(old(State()), acts, State())
      ensures TimerOutcome(old(Now()), Now(), id, gone, requeue)
    {
      ghost var start := State();
      var ask := WakeTimer(id);
      ghost var middle := State();
      ghost var more := [];
      if ask {
        ghost var b := books[id];
        more := AnswerAndCleanUp(id, gone, requeue);
        assert books == old(books)[id := books[id]] by { SetTwice(old(books), id, b, books[id]); }
      }
      assert Leads(start, [TimerWake(id)] + more, State()) by {
        OneThenLeads(start, TimerWake(id), middle, more, State());
      }
      acts := [TimerWake(id)] + more;
    }

    method AnswerAndCleanUp(id: Id, gone: bool, requeue: bool) returns (ghost acts: seq<Action>)
      requires Valid() && !closed && id in books && books[id].timer.Some? && books[id].asking && books[id].running.None?
      modifies this`graceful, this`callbacks, this`books, this`log
      ensures Valid() && Leads(old(State()), acts, State())
      ensures var a := AnsweredBook(old(books)[id], gone, requeue, Cleanup(old(callbacks), id));
              books == old(books)[id := CleanedBook(a)]
      ensures graceful == if gone then old(graceful) - {id} else old(graceful)
      ensures callbacks == if gone then old(callbacks) - {id} else old(callbacks)
    {
      ghost var start := State();
      AnswerTimer(id, gone, requeue);
      ghost var middle := State();
      ghost var more;
      more := CleanUp(id);
      OneThenLeads(start, TimerAnswer(id, gone, requeue), middle, more, State());
      acts := [TimerAnswer(id, gone, requeue)] + more;
    }

    /** The cleanup that was taken out, if there is one. */
    method CleanUp(id: Id) returns (ghost acts: seq<Action>)
      requires Valid() && !closed && id in books
      modifies this`books, this`log
      ensures Valid() && Leads(old(State()), acts, State()) && books == old(books)[id := CleanedBook(old(books)[id])]
    {
      acts := [];
      if books[id].running.Some? {
        acts := RunCallback(id);
      }
    }

    /** A cleanup callback: releases the record of its table, if it is still there. */
    method RunCallback(id: Id) returns (ghost acts: seq<Action>)
      requires Valid() && !closed && id in books && books[id].running.Some?
      modifies this`books, this`log
      ensures Valid() && acts == [Callback(id), ReleaseBlock(id)] && Leads(old(State()), acts, State())
      ensures books == old(books)[id := ReleasedBook(TakenBook(old(books)[id]))]
    {
      ghost var start := State();
      TakeRecord(id);
      ghost var middle := State();
      LeadsOne(start, [], start, Callback(id), middle);
      assert [] + [Callback(id)] == [Callback(id)];
      SetTwice(old(books), id, books[id], ReleasedBook(books[id]));
      ReleaseRecord(id);
      LeadsOne(start, [Callback(id)], middle, ReleaseBlock(id), State());
      assert [Callback(id)] + [ReleaseBlock(id)] == [Callback(id), ReleaseBlock(id)];
      acts := [Callback(id), ReleaseBlock(id)];
    }

    // ----- unmounting by the list -----

    /** The record table has this id. */
    predicate HasRecord(id: Id, table: Table)
      reads this
    {
      RecordedIn(books, id, table)
    }

    /** The ids that have a record, and whether some id had none. */
    method ChooseRecorded(ids: seq<Option<Id>>, table: Table) returns (chosen: seq<Id>, missing: bool)
      ensures chosen == Chosen(ids, Records(books, table)) && (missing <==> !AllRecorded(ids, Records(books, table)))
      ensures forall i :: 0 <= i < |chosen| ==> HasRecord(chosen[i], table)
    {
      chosen, missing := [], false;
      for i := 0 to |ids|
        invariant chosen == Chosen(ids[..i], Records(books, table)) &&
                  (missing <==> !AllRecorded(ids[..i], Records(books, table)))
      {
        assert ids[..i + 1][..i] == ids[..i];
        if ids[i].None? || !HasRecord(ids[i].value, table) {
          missing := true;
        } else {
          chosen := chosen + [ids[i].value];
        }
      }
      assert ids[..|ids|] == ids;
      ChosenIs(ids, Records(books, table));
      forall i | 0 <= i < |chosen| ensures HasRecord(chosen[i], table) {
        assert chosen[i] in chosen;
      }
    }

    /** Takes the record of an id that was unmounted at once out of its table. */
    method EraseRecord(id: Id)
      requires Valid() && !closed && id in books && books[id].Staged(Cleared)
      modifies this`books, this`log
      ensures Valid() && State() == Step(old(State()), Detach(id))
      ensures books == old(books)[id := old(books)[id].WithStage(Detached)]
    {
      ghost var before := State();
      SetBook(id, books[id].WithStage(Detached), log);
      OneViewChanged(before, Detach(id), State());
    }

    /** One id of the list: unmount it and, if that took effect at once, take its record out of the table. */
    method UnmountRecorded(id: Id, graceMs: Word, table: Table, master: Option<ErrorCode>, unregistered: bool)
      returns (error: Option<ErrorCode>, ghost acts: seq<Action>)
      requires Valid() && !closed && id in books && !books[id].Staged(InFlight) && !books[id].Staged(RolledBack)
      requires id in mounted ==> books[id].Staged(Recorded)
      modifies this`mounted, this`graceful, this`callbacks, this`books, this`log
      ensures Valid() && !closed && Leads(old(State()), acts, State())
      ensures error == UnmountError(id, old(mounted).Keys, graceMs == 0, master, unregistered)
      ensures mounted == if error.None? then old(mounted) - {id} else old(mounted)
      ensures books == if error.None? then old(books)[id := UnmountedBook(old(books)[id], graceMs == 0)] else old(books)
      ensures Parked(old(Now()), Now(), graceMs == 0, table)
    {
      ghost var start := State();
      ghost var act;
      error, act := UnmountSegmentById(id, graceMs, table, master, unregistered);
      ghost var middle := State();
      LeadsOne(start, [], start, act, middle);
      acts := [] + [act];
      if error.None? && graceMs == 0 {
        SetTwice(old(books), id, books[id], books[id].WithStage(Detached));
        EraseRecord(id);
        LeadsOne(start, acts, middle, Detach(id), State());
        acts := acts + [Detach(id)];
      }
    }

    /** How far the unmount loop has come, from the tables and the state it started in. */
    ghost predicate InUnmount(was: Tables, start: State, chosen: seq<Id>, atOnce: bool, table: Table,
                              master: nat -> Option<ErrorCode>, unregistered: nat -> bool, n: nat,
                              error: Option<ErrorCode>, taken: seq<Id>, acts: seq<Action>)
      reads this
    {
      && Valid() && !closed && Leads(start, acts, State())
      && UnmountedTo(was, Now(), chosen, atOnce, table, master, unregistered, n, error, taken)
    }

    method UnmountNext(chosen: seq<Id>, i: nat, graceMs: Word, table: Table, master: nat -> Option<ErrorCode>,
                       unregistered: nat -> bool, firstError: Option<ErrorCode>, taken: seq<Id>, ghost was: Tables,
                       ghost start: State, ghost acts: seq<Action>)
      returns (firstError': Option<ErrorCode>, taken': seq<Id>, ghost acts': seq<Action>)
      requires InUnmount(was, start, chosen, graceMs == 0, table, master, unregistered, i, firstError, taken, acts)
      requires i < |chosen| && chosen[i] in was.books && was.books[chosen[i]].Staged(Recorded)
      modifies this`mounted, this`graceful, this`callbacks, this`books, this`log
      ensures InUnmount(was, start, chosen, graceMs == 0, table, master, unregistered, i + 1, firstError', taken',
                        acts')
    {
      ghost var before, t, more := State(), Now(), [];
      var error;
      error, more := UnmountRecorded(chosen[i], graceMs, table, master(i), unregistered(i));
      LeadsOn(start, acts, before, more, State());
      acts' := acts + more;
      firstError' := if firstError.None? then error else firstError;
      taken' := if error.None? && graceMs == 0 then taken + [chosen[i]] else taken;
      UnmountedStep(was, t, Now(), chosen, graceMs == 0, table, master, unregistered, i, firstError, taken);
    }

    method UnmountChosen(chosen: seq<Id>, graceMs: Word, table: Table, master: nat -> Option<ErrorCode>,
                         unregistered: nat -> bool)
      returns (firstError: Option<ErrorCode>, taken: seq<Id>, ghost acts: seq<Action>)
      requires Valid() && !closed && forall i :: 0 <= i < |chosen| ==> HasRecord(chosen[i], table)
      modifies this`mounted, this`graceful, this`callbacks, this`books, this`log
      ensures InUnmount(old(Now()), old(State()), chosen, graceMs == 0, table, master, unregistered, |chosen|,
                        firstError, taken, acts)
    {
      ghost var was, start := Now(), State();
      firstError, taken, acts := None, [], [];
      for i := 0 to |chosen|
        invariant InUnmount(was, start, chosen, graceMs == 0, table, master, unregistered, i, firstError, taken, acts)
      {
        firstError, taken, acts := UnmountNext(chosen, i, graceMs, table, master, unregistered, firstError, taken,
                                               was, start, acts);
      }
    }

    /** munmap or free of everything that was taken out. */
    method ReleaseTaken(taken: seq<Id>) returns (ghost acts: seq<Action>)
      requires Valid() && !closed
      requires forall i :: 0 <= i < |taken| ==> taken[i] in books && books[taken[i]].Staged(Detached)
      modifies this`books, this`log
      ensures Valid() && Leads(old(State()), acts, State()) && FreedUpTo(old(books), books, taken, |taken|)
    {
      acts := [];
      for i := 0 to |taken|
        invariant Valid() && Leads(old(State()), acts, State()) && FreedUpTo(old(books), books, taken, i)
      {
        ghost var before, b0 := State(), books;
        ReleaseRecord(taken[i]);
        FreedOne(old(books), b0, books, taken, i);
        LeadsOne(old(State()), acts, before, ReleaseBlock(taken[i]), State());
        acts := acts + [ReleaseBlock(taken[i])];
      }
    }

    /**
     unmountSegment and unmountAndFreeSegment: unmount every id that has a record. Exactly the ids that
     were let go leave the map; at once their memory is released, gracefully a timer is set instead.
     */
    method UnmountSegments(ids: seq<Option<Id>>, graceSeconds: Word, table: Table, master: nat -> Option<ErrorCode>,
                           unregistered: nat -> bool)
      returns (firstError: Option<ErrorCode>, ghost acts: seq<Action>)
      requires Valid()
      modifies this`mounted, this`graceful, this`callbacks, this`books, this`log
      ensures Valid() && closed == old(closed) && Leads(old(State()), acts, State())
      ensures UnmountOutcome(old(Now()), Now(), !closed, ids, graceSeconds, table, master, unregistered, firstError)
      ensures firstError.None? <==>
              && !closed && Distinct(ids)
              && forall i :: 0 <= i < |ids| ==>
                   && ids[i].Some? && RecordAt(old(books), ids[i].value, table) && ids[i].value in old(mounted)
                   && master(i).None? && (graceSeconds * 1000 % WORD_SPAN == 0 ==> unregistered(i))
    {
      acts := [];
      if closed {
        return Some(OtherError(-1)), acts;
      }
      var graceMs: Word := graceSeconds * 1000 % WORD_SPAN;
      var chosen, missing := ChooseRecorded(ids, table);
      ListUnmounts(books, mounted.Keys, ids, graceMs == 0, table, master, unregistered);
      firstError, acts := UnmountAndRelease(chosen, graceMs, table, master, unregistered);
      if missing {
        firstError := Some(OtherError(-1));
      }
    }

    method UnmountAndRelease(chosen: seq<Id>, graceMs: Word, table: Table, master: nat -> Option<ErrorCode>,
                             unregistered: nat -> bool)
      returns (firstError: Option<ErrorCode>, ghost acts: seq<Action>)
      requires Valid() && !closed && forall i :: 0 <= i < |chosen| ==> HasRecord(chosen[i], table)
      modifies this`mounted, this`graceful, this`callbacks, this`books, this`log
      ensures Valid() && Leads(old(State()), acts, State())
      ensures firstError == FirstError(chosen, old(mounted).Keys, graceMs == 0, master, unregistered, |chosen|)
      ensures mounted.Keys == LeftAfter(chosen, old(mounted).Keys, graceMs == 0, master, unregistered, |chosen|)
      ensures LeftBehind(old(Now()), Now(), graceMs == 0) && Parked(old(Now()), Now(), graceMs == 0, table)
    {
      ghost var was, start := Now(), State();
      var taken;
      firstError, taken, acts := UnmountChosen(chosen, graceMs, table, master, unregistered);
      ghost var middle, between := State(), Now();
      ghost var more;
      more := ReleaseTaken(taken);
      LeadsOn(start, acts, middle, more, State());
      acts := acts + more;
      FreedMeans(was, between, Now(), graceMs == 0, table, taken);
    }

    // ----- teardown -----

    /** Both maps, the stored cleanups and the queued timers are gone; memory is untouched. */
    method CloseTables()
      requires Valid() && !closed && AllSettled(books)
      modifies this`mounted, this`graceful, this`callbacks, this`books, this`closed
      ensures Valid() && closed && State() == Step(old(State()), CloseMaps) && AllSettled(books)
      ensures mounted == map[] && graceful == map[] && callbacks == map[]
    {
      ghost var before := State();
      mounted, graceful, callbacks, closed := map[], map[], map[], true;
      books := map id | id in books :: books[id].(timer := None);
      assert forall j <- books :: old(books)[j].Settled();
      assert State().views == map id | id in before.views :: Ended(before.views[id]);
    }

    /** Release of one record, if the table still has it. */
    method ReleaseFrom(id: Id, table: Table, ghost start: State, ghost acts: seq<Action>)
      returns (ghost acts': seq<Action>)
      requires Valid() && closed && Leads(start, acts, State()) && AllSettled(books)
      modifies this`books, this`log
      ensures Valid() && Leads(start, acts', State()) && AllSettled(books) && !HasRecord(id, table)
      ensures books.Keys == old(books).Keys && forall j <- books :: books[j] == old(books)[j] || books[j].block.None?
    {
      acts' := acts;
      if HasRecord(id, table) {
        ghost var before := State();
        SetBook(id, books[id].(block := None), Released(log, books[id].block.value.name));
        OneViewChanged(before, TearRelease(id), State());
        LeadsOne(start, acts, before, TearRelease(id), State());
        acts' := acts + [TearRelease(id)];
      }
    }

    /** The stored cleanups run. */
    method RunCleanups(cleanups: map<Id, Table>, ghost start: State, ghost acts: seq<Action>)
      returns (ghost acts': seq<Action>)
      requires Valid() && closed && Leads(start, acts, State()) && AllSettled(books)
      modifies this`books, this`log
      ensures Valid() && Leads(start, acts', State()) && AllSettled(books)
    {
      var rest := cleanups.Keys;
      acts' := acts;
      while rest != {}
        invariant rest <= cleanups.Keys && Valid() && Leads(start, acts', State()) && AllSettled(books)
        decreases |rest|
      {
        var id :| id in rest;
        acts' := ReleaseFrom(id, cleanups[id], start, acts');
        rest := rest - {id};
      }
    }

    /** Every record of a table is released. */
    method ReleaseAll(table: Table, ghost start: State, ghost acts: seq<Action>) returns (ghost acts': seq<Action>)
      requires Valid() && closed && Leads(start, acts, State()) && AllSettled(books)
      modifies this`books, this`log
      ensures Valid() && Leads(start, acts', State()) && AllSettled(books)
      ensures books.Keys == old(books).Keys && forall j <- books :: !HasRecord(j, table)
      ensures forall j <- books :: books[j] == old(books)[j] || books[j].block.None?
    {
      var rest := books.Keys;
      acts' := acts;
      while rest != {}
        invariant Valid() && Leads(start, acts', State()) && AllSettled(books)
        invariant books.Keys == old(books).Keys && rest <= books.Keys
        invariant forall j <- books :: j !in rest ==> !HasRecord(j, table)
        invariant forall j <- books :: books[j] == old(books)[j] || books[j].block.None?
        decreases |rest|
      {
        var id :| id in rest;
        acts' := ReleaseFrom(id, table, start, acts');
        rest := rest - {id};
      }
    }

    lemma SettledMeansQuiet()
      requires AllSettled(books)
      ensures Quiet(State())
    {
      forall id <- State().views ensures State().views[id].block == books[id].block && books[id].Settled() {
      }
    }

    /** Whatever the maps stood for is released: by the stored cleanups, then table by table. */
    method ReleaseEverything(cleanups: map<Id, Table>) returns (ghost acts: seq<Action>)
      requires Valid() && closed && AllSettled(books)
      modifies this`books, this`log
      ensures Valid() && Leads(old(State()), acts, State()) && Drained(State())
    {
      ghost var start := State();
      acts := RunCleanups(cleanups, start, []);
      acts := ReleaseAll(MappedTable, start, acts);
      acts := ReleaseAll(AllocatedTable, start, acts);
      NothingLeft();
    }

    /** No table has a record left and nothing else holds memory. */
    lemma NothingLeft()
      requires closed && AllSettled(books)
      requires forall j <- books :: !HasRecord(j, MappedTable) && !HasRecord(j, AllocatedTable)
      ensures Drained(State())
    {
      forall id <- State().views ensures State().views[id].block.None? {
        assert books[id].Settled();
      }
    }

    /**
     The destructor and what tearDownAll does after it: both maps are emptied, then every stored cleanup
     runs, then the two record tables are released. Nothing is released before the maps are empty, and
     nothing is left.
     */
    method Teardown() returns (ghost acts: seq<Action>)
      requires Valid() && !closed && AllSettled(books)
      modifies this
      ensures Valid() && Leads(old(State()), acts, State()) && Drained(State())
      ensures acts != [] && acts[0] == CloseMaps
      ensures mounted == map[] && graceful == map[] && callbacks == map[]
    {
      ghost var start := State();
      var cleanups := callbacks;
      SettledMeansQuiet();
      CloseTables();
      ghost var middle := State();
      acts := ReleaseEverything(cleanups);
      OneThenLeads(start, CloseMaps, middle, acts, State());
      acts := [CloseMaps] + acts;
    }
  }

  /** An id that was unmounted at once: its record, if it has one, is to be erased. */
  function ClearedBook(b: Book): Book {
    if b.Staged(Recorded) then b.WithStage(Cleared) else b
  }

  function AnsweredBook(b: Book, gone: bool, requeue: bool, callback: Option<Table>): Book
    requires b.timer.Some?
  {
    if gone then b.(timer := None, asking := false, running := if callback.Some? then callback else b.running)
    else b.(asking := false, timer := if b.timer.value > 0 && requeue then Some(b.timer.value - 1) else None)
  }

  /** A cleanup takes the record of its own table only. */
  function TakenBook(b: Book): Book {
    (if b.Staged(Recorded) && b.running == Some(b.block.value.table) then b.WithStage(Detached)
     else b).(running := None)
  }

  function ReleasedBook(b: Book): Book {
    if b.Staged(Detached) then b.(block := None) else b
  }

  function CleanedBook(b: Book): Book {
    if b.running.Some? then ReleasedBook(TakenBook(b)) else b
  }

  /** A timer task without a graceful segment ends; with one it asks, and the answer decides. */
  function FiredBook(b: Book, found: bool, gone: bool, requeue: bool, callback: Option<Table>): Book
    requires b.timer.Some?
  {
    if !found then b.(timer := None) else
      CleanedBook(AnsweredBook(b.(asking := true, polls := b.polls + 1), gone, requeue, callback))
  }

  /** When a graceful unmount ends, its memory goes with it. */
  lemma FiredBookIs(b: Book, found: bool, gone: bool, requeue: bool, callback: Option<Table>)
    requires b.timer.Some? && b.Settled()
    ensures var f := FiredBook(b, found, gone, requeue, callback);
            && f.Settled() && f.polls == (if found then b.polls + 1 else b.polls)
            && f.block == (if found && gone && b.block.Some? && callback == Some(b.block.value.table) then None
                           else b.block)
            && f.timer == (if found && !gone && requeue && b.timer.value > 0 then Some(b.timer.value - 1) else None)
  {
  }

  // ----- what an unmount call leaves -----

  /**
   With a grace period exactly the segments that left the map are in the graceful map and have the
   cleanup of their table stored; without one neither table has changed.
   */
  ghost predicate Parked(was: Tables, now: Tables, atOnce: bool, table: Table) {
    if atOnce then now.graceful == was.graceful && now.callbacks == was.callbacks else
      && (forall j :: j in now.graceful <==> j in was.graceful || Gone(was, now, j))
      && (forall j :: j in now.callbacks <==> j in was.callbacks || Gone(was, now, j))
      && (forall j <- now.graceful :: now.graceful[j] == if Gone(was, now, j) then was.mounted[j] else was.graceful[j])
      && (forall j <- now.callbacks :: now.callbacks[j] == if Gone(was, now, j) then table else was.callbacks[j])
  }

  ghost predicate Gone(was: Tables, now: Tables, id: Id) {
    id in was.mounted && id !in now.mounted
  }

  lemma ParkedOn(was: Tables, between: Tables, now: Tables, atOnce: bool, table: Table)
    requires Parked(was, between, atOnce, table) && Parked(between, now, atOnce, table)
    requires between.mounted.Keys <= was.mounted.Keys && now.mounted.Keys <= between.mounted.Keys
    requires forall j <- between.mounted :: between.mounted[j] == was.mounted[j]
    ensures Parked(was, now, atOnce, table)
  {
    assert forall j :: Gone(was, now, j) <==> Gone(was, between, j) || Gone(between, now, j);
  }

  /** The book of an id that the unmount loop has unmounted. */
  function UnmountedBook(b: Book, atOnce: bool): Book {
    if !atOnce then b.(timer := Some(3)) else if b.Staged(Recorded) then b.WithStage(Detached) else b
  }

  /** Exactly the ids that left the map have changed; at once, they are also the ones whose records were taken out. */
  ghost predicate Unmounting(was: Tables, now: Tables, atOnce: bool, taken: seq<Id>) {
    && now.books.Keys == was.books.Keys && now.mounted.Keys <= was.mounted.Keys
    && (forall j <- now.mounted :: now.mounted[j] == was.mounted[j])
    && (forall j <- now.books :: now.books[j] == if Gone(was, now, j) then UnmountedBook(was.books[j], atOnce)
        else was.books[j])
    && (forall j :: j in taken <==> atOnce && Gone(was, now, j))
    && (forall j <- taken :: j in was.books && was.books[j].Staged(Recorded))
  }

  lemma UnmountingGrows(was: Tables, t: Tables, now: Tables, atOnce: bool, taken: seq<Id>, id: Id)
    requires Unmounting(was, t, atOnce, taken) && id in t.mounted && id in t.books && was.books[id].Staged(Recorded)
    requires now.mounted == t.mounted - {id} && now.books == t.books[id := UnmountedBook(t.books[id], atOnce)]
    ensures Unmounting(was, now, atOnce, if atOnce then taken + [id] else taken)
  {
    assert forall j :: Gone(was, now, j) <==> Gone(was, t, j) || j == id;
  }

  /** How far the unmount loop has come. */
  ghost predicate UnmountedTo(was: Tables, now: Tables, chosen: seq<Id>, atOnce: bool, table: Table,
                              master: nat -> Option<ErrorCode>, unregistered: nat -> bool, n: nat,
                              error: Option<ErrorCode>, taken: seq<Id>)
  {
    && n <= |chosen| && error == FirstError(chosen, was.mounted.Keys, atOnce, master, unregistered, n)
    && now.mounted.Keys == LeftAfter(chosen, was.mounted.Keys, atOnce, master, unregistered, n)
    && Unmounting(was, now, atOnce, taken) && Parked(was, now, atOnce, table)
  }

  lemma UnmountedStep(was: Tables, t: Tables, now: Tables, chosen: seq<Id>, atOnce: bool, table: Table,
                      master: nat -> Option<ErrorCode>, unregistered: nat -> bool, n: nat,
                      error: Option<ErrorCode>, taken: seq<Id>)
    requires n < |chosen| && UnmountedTo(was, t, chosen, atOnce, table, master, unregistered, n, error, taken)
    requires chosen[n] in was.books && was.books[chosen[n]].Staged(Recorded) && Parked(t, now, atOnce, table)
    requires if UnmountError(chosen[n], t.mounted.Keys, atOnce, master(n), unregistered(n)).None?
             then now.mounted == t.mounted - {chosen[n]} &&
                  now.books == t.books[chosen[n] := UnmountedBook(t.books[chosen[n]], atOnce)]
             else now.mounted == t.mounted && now.books == t.books
    ensures var e := UnmountError(chosen[n], t.mounted.Keys, atOnce, master(n), unregistered(n));
            UnmountedTo(was, now, chosen, atOnce, table, master, unregistered, n + 1, if error.None? then e else error,
                        if e.None? && atOnce then taken + [chosen[n]] else taken)
  {
    var e := UnmountError(chosen[n], t.mounted.Keys, atOnce, master(n), unregistered(n));
    assert now.mounted.Keys == LeftAfter(chosen, was.mounted.Keys, atOnce, master, unregistered, n + 1);
    assert Parked(was, now, atOnce, table) by { ParkedOn(was, t, now, atOnce, table); }
    assert Unmounting(was, now, atOnce, if e.None? && atOnce then taken + [chosen[n]] else taken) by {
      if e.None? {
        UnmountingGrows(was, t, now, atOnce, taken, chosen[n]);
      } else {
        UnmountingStays(was, t, now, atOnce, taken);
      }
    }
  }

  lemma UnmountingStays(was: Tables, t: Tables, now: Tables, atOnce: bool, taken: seq<Id>)
    requires Unmounting(was, t, atOnce, taken) && now.mounted == t.mounted && now.books == t.books
    ensures Unmounting(was, now, atOnce, taken)
  {
    assert forall j :: Gone(was, now, j) <==> Gone(was, t, j);
  }

  /** The memory of the first n ids is gone, everything else is as it was. */
  ghost predicate FreedUpTo(was: map<Id, Book>, books: map<Id, Book>, taken: seq<Id>, n: nat) {
    && n <= |taken| && books.Keys == was.Keys
    && forall j <- books :: books[j] == if j in taken[..n] then was[j].(block := None) else was[j]
  }

  lemma FreedOne(was: map<Id, Book>, b0: map<Id, Book>, b1: map<Id, Book>, taken: seq<Id>, n: nat)
    requires n < |taken| && FreedUpTo(was, b0, taken, n) && taken[n] in was && was[taken[n]].Staged(Detached)
    requires b1 == b0[taken[n] := ReleasedBook(b0[taken[n]])]
    ensures FreedUpTo(was, b1, taken, n + 1)
  {
    assert taken[..n + 1] == taken[..n] + [taken[n]];
  }

  /** After the call: whoever left the map lost its memory at once, or has a timer. */
  ghost predicate LeftBehind(was: Tables, now: Tables, atOnce: bool) {
    && now.books.Keys == was.books.Keys && now.mounted.Keys <= was.mounted.Keys
    && (forall j <- now.mounted :: now.mounted[j] == was.mounted[j])
    && forall j <- now.books ::
         now.books[j] == if !Gone(was, now, j) then was.books[j]
                         else if atOnce then was.books[j].(block := None) else was.books[j].(timer := Some(3))
  }

  lemma FreedMeans(was: Tables, between: Tables, now: Tables, atOnce: bool, table: Table, taken: seq<Id>)
    requires Unmounting(was, between, atOnce, taken) && FreedUpTo(between.books, now.books, taken, |taken|)
    requires Parked(was, between, atOnce, table) && now == between.(books := now.books)
    ensures LeftBehind(was, now, atOnce) && Parked(was, now, atOnce, table)
  {
    assert taken[..|taken|] == taken;
    assert forall j :: Gone(was, now, j) <==> Gone(was, between, j);
  }
}
