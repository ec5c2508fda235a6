/** A whole life of the segment client: any calls in any order, then teardown. */
module SegmentLife {
  import opened Machine
  import opened Store
  import opened Ledger
  import opened SegmentSpec
  import opened SegmentChunks
  import opened SegmentClient

  /** A call with everything foreign code answers while it runs. */
  datatype Request =
    | Mount(file: Option<Word>, offset: Word, size: Word, page: Word, maxMr: Word, replies: nat -> ChunkReply,
            master: nat -> Option<ErrorCode>, unregistered: nat -> bool)
    | Allocate(size: Word, page: Word, slab: Word, maxMr: Word, replies: nat -> ChunkReply,
               master: nat -> Option<ErrorCode>, unregistered: nat -> bool)
    | UnmountList(ids: seq<Option<Id>>, graceSeconds: Word, table: Table, master: nat -> Option<ErrorCode>,
                  unregistered: nat -> bool)
    | Fire(id: Id, gone: bool, requeue: bool)   // a timer task, if one is queued

  /** Pages and slabs have a size. */
  predicate Sized(r: Request) {
    (r.Mount? ==> r.page > 0) && (r.Allocate? ==> r.page > 0 && r.slab > 0)
  }

  ghost predicate AllSized(requests: seq<Request>) {
    forall i :: 0 <= i < |requests| ==> Sized(requests[i])
  }

  /** The request may hand out this id. */
  ghost predicate Names(r: Request, id: Id) {
    (r.Mount? || r.Allocate?) && exists k: nat :: r.replies(k).id == id
  }

  /** UUIDs come once: not twice in one request, not in two. */
  ghost predicate FreshRequests(requests: seq<Request>) {
    && (forall i :: 0 <= i < |requests| && (requests[i].Mount? || requests[i].Allocate?) ==>
          FreshIds(requests[i].replies, {}))
    && (forall i, j, id :: 0 <= i < j < |requests| && Names(requests[i], id) ==> !Names(requests[j], id))
  }

  /** What a call returns. */
  datatype Outcome =
    | MountResult(rc: int, ids: seq<Id>, sizes: seq<Word>, offsets: seq<Word>)
    | AllocateResult(rc: int, ids: seq<Id>, sizes: seq<Word>, granted: Option<Word>)
    | UnmountResult(error: Option<ErrorCode>)
    | FireResult

  /** The request was served: its result and what it made of the tables are those of its call. */
  ghost predicate Done(r: Request, o: Outcome, was: Tables, now: Tables)
    requires Sized(r)
  {
    match r
    case Mount(file, offset, size, page, maxMr, replies, master, unregistered) =>
      o.MountResult? && MountOutcome(was, now, true, file, offset, size, page, maxMr, replies, master, unregistered,
                                     o.rc, o.ids, o.sizes, o.offsets)
    case Allocate(size, page, slab, maxMr, replies, master, unregistered) =>
      o.AllocateResult? && AllocateOutcome(was, now, true, size, page, slab, maxMr, replies, master, unregistered,
                                           o.rc, o.ids, o.sizes, o.granted)
    case UnmountList(ids, graceSeconds, table, master, unregistered) =>
      o.UnmountResult? && UnmountOutcome(was, now, true, ids, graceSeconds, table, master, unregistered, o.error)
    case Fire(id, gone, requeue) => o.FireResult? && TimerOutcome(was, now, id, gone, requeue)
  }

  /** Nothing is half done and every id is an old one or the request's own. */
  ghost predicate SettledWith(r: Request, was: Tables, now: Tables) {
    AllSettled(now.books) && forall id <- now.books :: id in was.books || Names(r, id)
  }

  /** A served request leaves nothing half done and hands out only ids of its own. */
  lemma DoneSettles(r: Request, o: Outcome, was: Tables, now: Tables)
    requires Sized(r) && Done(r, o, was, now) && AllSettled(was.books)
    ensures SettledWith(r, was, now)
  {
    match r
    case Mount(_, _, _, _, _, _, _, _) => MountDoneSettles(r, o, was, now);
    case Allocate(_, _, _, _, _, _, _) => AllocateDoneSettles(r, o, was, now);
    case UnmountList(_, graceSeconds, _, _, _) =>
      UnmountSettles(r, was, now, graceSeconds * 1000 % WORD_SPAN == 0);
    case Fire(id, gone, requeue) =>
      if id in was.books && was.books[id].timer.Some? {
        FiredBookIs(was.books[id], id in was.graceful, gone, requeue, Cleanup(was.callbacks, id));
      }
  }

  lemma MountDoneSettles(r: Request, o: Outcome, was: Tables, now: Tables)
    requires Sized(r) && r.Mount? && Done(r, o, was, now) && AllSettled(was.books)
    ensures SettledWith(r, was, now)
  {
    if o.rc == 0 {
      RecordedSettles(r, was, now, o.ids, o.sizes, MappedTable);
    } else if now != was {
      var tried: nat :| Blanked(was.books, now.books, tried, r.replies);
      BlankedSettles(r, was, now, tried);
    }
  }

  lemma AllocateDoneSettles(r: Request, o: Outcome, was: Tables, now: Tables)
    requires Sized(r) && r.Allocate? && Done(r, o, was, now) && AllSettled(was.books)
    ensures SettledWith(r, was, now)
  {
    if o.rc == 0 {
      RecordedSettles(r, was, now, o.ids, o.sizes, AllocatedTable);
    } else if now != was {
      var tried: nat :| Blanked(was.books, now.books, tried, r.replies);
      BlankedSettles(r, was, now, tried);
    }
  }

  lemma BlankedSettles(r: Request, was: Tables, now: Tables, tried: nat)
    requires (r.Mount? || r.Allocate?) && Blanked(was.books, now.books, tried, r.replies) && AllSettled(was.books)
    ensures SettledWith(r, was, now)
  {
    forall id <- now.books ensures now.books[id].Settled() && (id in was.books || Names(r, id)) {
      if id in was.books { assert was.books[id].Settled(); }
    }
  }

  lemma RecordedSettles(r: Request, was: Tables, now: Tables, ids: seq<Id>, sizes: seq<Word>, table: Table)
    requires (r.Mount? || r.Allocate?) && IdsOf(ids, r.replies) && AllSettled(was.books)
    requires Mounting(was.books, now.books, ids, sizes, table, |ids|, Some(Recorded))
    ensures SettledWith(r, was, now)
  {
    MountSettles(was.books, now.books, ids, sizes, table);
    NewNames(was.books, now.books, ids, sizes, table, r);
  }

  lemma UnmountSettles(r: Request, was: Tables, now: Tables, atOnce: bool)
    requires LeftBehind(was, now, atOnce) && AllSettled(was.books)
    ensures SettledWith(r, was, now)
  {
    forall id <- now.books ensures now.books[id].Settled() && id in was.books {
      assert was.books[id].Settled();
    }
  }

  /** One call. It starts and ends with nothing half done. */
  method Serve(c: Client, r: Request) returns (o: Outcome, ghost acts: seq<Action>)
    requires c.Valid() && !c.closed && AllSettled(c.books) && Sized(r)
    requires r.Mount? || r.Allocate? ==> FreshIds(r.replies, c.books.Keys)
    modifies c
    ensures c.Valid() && !c.closed && Leads(old(c.State()), acts, c.State())
    ensures Done(r, o, old(c.Now()), c.Now())
    ensures SettledWith(r, old(c.Now()), c.Now())
  {
    ghost var was := c.Now();
    match r {
      case Mount(_, _, _, _, _, _, _, _) => o, acts := ServeMount(c, r);
      case Allocate(_, _, _, _, _, _, _) => o, acts := ServeAllocate(c, r);
      case UnmountList(_, _, _, _, _) => o, acts := ServeUnmount(c, r);
      case Fire(_, _, _) => o, acts := ServeTimer(c, r);
    }
    DoneSettles(r, o, was, c.Now());
  }

  method ServeMount(c: Client, r: Request) returns (o: Outcome, ghost acts: seq<Action>)
    requires c.Valid() && !c.closed && AllSettled(c.books) && Sized(r) && r.Mount?
    requires FreshIds(r.replies, c.books.Keys)
    modifies c
    ensures c.Valid() && !c.closed && Leads(old(c.State()), acts, c.State())
    ensures Done(r, o, old(c.Now()), c.Now())
  {
    var rc, ids, sizes, offsets, more :=
      c.MountSegment(r.file, r.offset, r.size, r.page, r.maxMr, r.replies, r.master, r.unregistered);
    o, acts := MountResult(rc, ids, sizes, offsets), more;
  }

  method ServeAllocate(c: Client, r: Request) returns (o: Outcome, ghost acts: seq<Action>)
    requires c.Valid() && !c.closed && AllSettled(c.books) && Sized(r) && r.Allocate?
    requires FreshIds(r.replies, c.books.Keys)
    modifies c
    ensures c.Valid() && !c.closed && Leads(old(c.State()), acts, c.State())
    ensures Done(r, o, old(c.Now()), c.Now())
  {
    var rc, ids, sizes, granted, more :=
      c.AllocateAndMountSegment(r.size, r.page, r.slab, r.maxMr, r.replies, r.master, r.unregistered);
    o, acts := AllocateResult(rc, ids, sizes, granted), more;
  }

  method ServeUnmount(c: Client, r: Request) returns (o: Outcome, ghost acts: seq<Action>)
    requires c.Valid() && !c.closed && AllSettled(c.books) && Sized(r) && r.UnmountList?
    modifies c
    ensures c.Valid() && !c.closed && Leads(old(c.State()), acts, c.State())
    ensures Done(r, o, old(c.Now()), c.Now())
  {
    var error, more := c.UnmountSegments(r.ids, r.graceSeconds, r.table, r.master, r.unregistered);
    o, acts := UnmountResult(error), more;
  }

  method ServeTimer(c: Client, r: Request) returns (o: Outcome, ghost acts: seq<Action>)
    requires c.Valid() && !c.closed && AllSettled(c.books) && Sized(r) && r.Fire?
    modifies c
    ensures c.Valid() && !c.closed && Leads(old(c.State()), acts, c.State())
    ensures Done(r, o, old(c.Now()), c.Now())
  {
    o, acts := FireResult, [];
    if r.id in c.books && c.books[r.id].timer.Some? {
      acts := c.OnGracefulUnmountTimer(r.id, r.gone, r.requeue);
    }
  }

  lemma NewNames(was: map<Id, Book>, books: map<Id, Book>, ids: seq<Id>, sizes: seq<Word>, table: Table, r: Request)
    requires (r.Mount? || r.Allocate?) && IdsOf(ids, r.replies) &&
             Mounting(was, books, ids, sizes, table, |ids|, Some(Recorded))
    ensures forall id <- books :: id in was || Names(r, id)
  {
    forall id <- books | id !in was ensures Names(r, id) {
      var i :| 0 <= i < |ids| && ids[i] == id;
      assert r.replies(i).id == id;
    }
  }

  /** Every id in use was handed out by one of the first n requests. */
  ghost predicate FromEarlier(requests: seq<Request>, n: nat, books: map<Id, Book>)
    requires n <= |requests|
  {
    forall id <- books :: exists i :: 0 <= i < n && Names(requests[i], id)
  }

  lemma StillFresh(requests: seq<Request>, n: nat, books: map<Id, Book>)
    requires n < |requests| && FreshRequests(requests) && FromEarlier(requests, n, books)
    requires requests[n].Mount? || requests[n].Allocate?
    ensures FreshIds(requests[n].replies, books.Keys)
  {
    var r := requests[n];
    forall k: nat ensures r.replies(k).id !in books {
      assert Names(r, r.replies(k).id);
    }
  }

  lemma StillEarlier(requests: seq<Request>, n: nat, was: Tables, now: Tables)
    requires n < |requests| && FromEarlier(requests, n, was.books) && SettledWith(requests[n], was, now)
    ensures FromEarlier(requests, n + 1, now.books)
  {
    forall id <- now.books ensures exists i :: 0 <= i < n + 1 && Names(requests[i], id) {
      if id in was.books {
        var i :| 0 <= i < n && Names(requests[i], id);
        assert Names(requests[i], id);
      }
    }
  }

  /** The first n requests were served one after the other, and the run passed through the tables between them. */
  ghost predicate ServedUpTo(requests: seq<Request>, n: nat, outcomes: seq<Outcome>, tables: seq<Tables>,
                             marks: seq<nat>, acts: seq<Action>)
    requires AllSized(requests)
  {
    && n <= |requests| && |outcomes| == n && |tables| == |marks| == n + 1 && tables[0] == NO_TABLES
    && (forall i :: 0 <= i < n ==> Done(requests[i], outcomes[i], tables[i], tables[i + 1]))
    && forall i :: 0 <= i <= n ==> Passes(acts, marks[i], tables[i])
  }

  /** After m of the actions the state is what the tables say. */
  ghost predicate Passes(acts: seq<Action>, m: nat, t: Tables) {
    m <= |acts| && Shows(After(START, acts[..m]), t)
  }

  lemma PassesOn(acts: seq<Action>, more: seq<Action>, m: nat, t: Tables)
    requires Passes(acts, m, t)
    ensures Passes(acts + more, m, t)
  {
    assert (acts + more)[..m] == acts[..m];
  }

  lemma ServedOn(requests: seq<Request>, n: nat, outcomes: seq<Outcome>, tables: seq<Tables>, marks: seq<nat>,
                 acts: seq<Action>, more: seq<Action>)
    requires AllSized(requests)
    requires ServedUpTo(requests, n, outcomes, tables, marks, acts)
    ensures ServedUpTo(requests, n, outcomes, tables, marks, acts + more)
  {
    forall i | 0 <= i <= n ensures Passes(acts + more, marks[i], tables[i]) {
      PassesOn(acts, more, marks[i], tables[i]);
    }
  }

  lemma ServedOne(requests: seq<Request>, n: nat, outcomes: seq<Outcome>, tables: seq<Tables>, marks: seq<nat>,
                  acts: seq<Action>, more: seq<Action>, o: Outcome, t: Tables, s: State)
    requires AllSized(requests)
    requires n < |requests| && ServedUpTo(requests, n, outcomes, tables, marks, acts)
    requires Done(requests[n], o, tables[n], t) && Leads(START, acts + more, s) && Shows(s, t)
    ensures ServedUpTo(requests, n + 1, outcomes + [o], tables + [t], marks + [|acts + more|], acts + more)
  {
    ServedOn(requests, n, outcomes, tables, marks, acts, more);
    assert (acts + more)[..|acts + more|] == acts + more;
    assert Passes(acts + more, |acts + more|, t);
  }

  /**
   Construction, any number of calls of any kind, teardown. Every request gets the result of its call on
   the tables the call before it left. The calls are a run of the state machine that passes through these
   tables, so whatever holds of every run holds here; teardown starts by closing the maps, and at the end
   every piece of memory has been released exactly once and no id is live.
   */
  method Lifetime(requests: seq<Request>)
    returns (c: Client, outcomes: seq<Outcome>, ghost tables: seq<Tables>, ghost marks: seq<nat>,
             ghost acts: seq<Action>)
    requires FreshRequests(requests) && AllSized(requests)
    ensures ServedUpTo(requests, |requests|, outcomes, tables, marks, acts)
    ensures marks[|requests|] < |acts| && acts[marks[|requests|]] == CloseMaps
    ensures IsRun(TraceOf(START, acts), acts) && TraceOf(START, acts)[|acts|] == c.State()
    ensures Drained(c.State()) && Disciplined(c.log)
    ensures forall name: nat :: Held(c.log, name) == 0 && Releases(c.log, name) == if name < c.next then 1 else 0
  {
    c := new Client();
    outcomes, tables, marks, acts := [], [NO_TABLES], [0], [];
    assert Passes(acts, 0, NO_TABLES);
    for i := 0 to |requests|
      invariant c.Valid() && !c.closed && AllSettled(c.books) && fresh(c)
      invariant Leads(START, acts, c.State()) && FromEarlier(requests, i, c.books)
      invariant ServedUpTo(requests, i, outcomes, tables, marks, acts) && tables[i] == c.Now() && marks[i] == |acts|
    {
      var o;
      o, tables, marks, acts := ServeNext(c, requests, i, outcomes, tables, marks, acts);
      outcomes := outcomes + [o];
    }
    ghost var s := c.State();
    ghost var more;
    more := c.Teardown();
    LeadsOn(START, acts, s, more, c.State());
    ServedOn(requests, |requests|, outcomes, tables, marks, acts, more);
    acts := acts + more;
    Balanced(acts, c.State());
  }

  /** The next request of a list. */
  method ServeNext(c: Client, requests: seq<Request>, i: nat, ghost outcomes: seq<Outcome>, ghost tables: seq<Tables>,
                   ghost marks: seq<nat>, ghost acts: seq<Action>)
    returns (o: Outcome, ghost tables': seq<Tables>, ghost marks': seq<nat>, ghost acts': seq<Action>)
    requires FreshRequests(requests) && i < |requests| && AllSized(requests)
    requires c.Valid() && !c.closed && AllSettled(c.books)
    requires Leads(START, acts, c.State()) && FromEarlier(requests, i, c.books)
    requires ServedUpTo(requests, i, outcomes, tables, marks, acts) && tables[i] == c.Now()
    modifies c
    ensures c.Valid() && !c.closed && AllSettled(c.books)
    ensures Leads(START, acts', c.State()) && FromEarlier(requests, i + 1, c.books)
    ensures ServedUpTo(requests, i + 1, outcomes + [o], tables', marks', acts')
    ensures tables'[i + 1] == c.Now() && marks'[i + 1] == |acts'|
  {
    ghost var was, s := c.Now(), c.State();
    assert requests[i].Mount? || requests[i].Allocate? ==> FreshIds(requests[i].replies, c.books.Keys) by {
      if requests[i].Mount? || requests[i].Allocate? { StillFresh(requests, i, c.books); }
    }
    ghost var more;
    o, more := Serve(c, requests[i]);
    StillEarlier(requests, i, was, c.Now());
    LeadsOn(START, acts, s, more, c.State());
    ServedOne(requests, i, outcomes, tables, marks, acts, more, o, c.Now(), c.State());
    tables', marks', acts' := tables + [c.Now()], marks + [|acts + more|], acts + more;
  }

  lemma Balanced(acts: seq<Action>, s: State)
    requires Leads(START, acts, s) && Drained(s)
    ensures IsRun(TraceOf(START, acts), acts) && TraceOf(START, acts)[|acts|] == s && Disciplined(s.log)
    ensures forall name: nat :: Held(s.log, name) == 0 && Releases(s.log, name) == if name < s.next then 1 else 0
  {
    LeadsIsRun(acts, s);
    BalancedAt(TraceOf(START, acts), acts, s);
  }

  lemma BalancedAt(trace: seq<State>, acts: seq<Action>, s: State)
    requires IsRun(trace, acts) && trace[|acts|] == s && Drained(s)
    ensures Disciplined(s.log)
    ensures forall name: nat :: Held(s.log, name) == 0 && Releases(s.log, name) == if name < s.next then 1 else 0
  {
    assert Inv(s) by { ReachableInv(trace, acts, |acts|); }
    forall name: nat ensures Held(s.log, name) == 0 && Releases(s.log, name) == if name < s.next then 1 else 0 {
      AllReleased(trace, acts, |acts|, name, 0);
    }
  }
}
