/**
 The life of mounted segments as a state machine. An action is one critical section of the client code
 together with the unlocked steps next to it that concern its own id only, so a sequence of actions is
 an interleaving of any number of threads: mounts, rollbacks, immediate and graceful unmounts, timer
 tasks, cleanups and the final teardown. MountChunk joins the acquisition of the chunk's memory, the
 locked mount, and the release of the memory if the mount is refused. CloseMaps joins the locked
 sections in which the destructor, as sole owner, takes the maps over, unmounts and clears them.
 */
module SegmentSpec {
  import opened Machine
  import opened Ledger

  type Id = nat            // a segment's UUID

  datatype Segment = Segment(base: Word, size: Word)

  /** Which of the two record tables a piece of memory belongs to: mapped files or allocations. */
  datatype Table = MappedTable | AllocatedTable

  /**
   In flight: mounted by a running call; rolled back: that call gave up and has tried to unmount it;
   recorded: in a record table; cleared: unmounted at once, record still in the table; detached: taken
   out of the table, to be released.
   */
  datatype Stage = InFlight | RolledBack | Recorded | Cleared | Detached

  /** A piece of memory the client holds. Every acquisition gets a name of its own. */
  datatype Block = Block(name: nat, table: Table, base: Word, size: Word, stage: Stage)

  datatype Action =
    | MountChunk(id: Id, table: Table, base: Word, size: Word, maxMr: Word, registered: bool, master: bool)
    | Commit(id: Id)
    | RollbackUnmount(id: Id, ok: bool)
    | RollbackRelease(id: Id)
    | Unmount(id: Id, ok: bool)
    | Detach(id: Id)
    | ReleaseBlock(id: Id)
    | Graceful(id: Id, table: Table, ok: bool)
    | TimerWake(id: Id)
    | TimerAnswer(id: Id, gone: bool, requeue: bool)
    | Callback(id: Id)
    | CloseMaps
    | TearRelease(id: Id)

  // ----- one id -----

  /** Everything the client knows about one id. */
  datatype View = View(
    mounted: Option<Segment>, graceful: Option<Segment>,
    callback: Option<Table>,   // cleanup to run when the graceful unmount is over
    timer: Option<nat>,        // timer task, with the retries it has left
    asking: bool,              // the timer task is waiting for the master's answer
    polls: nat,                // status queries made so far
    running: Option<Table>,    // cleanup taken out and not yet run
    block: Option<Block>)
  {
    predicate Live() {
      mounted.Some? || graceful.Some?
    }

    predicate Staged(stage: Stage) {
      block.Some? && block.value.stage == stage
    }

    /** The id is known to its own mount call only. */
    predicate Hidden() {
      Staged(InFlight) || Staged(RolledBack)
    }

    /** The memory behind a live id is held and is the memory the id stands for. */
    predicate Backed() {
      block.Some? && Live() &&
      var seg := if mounted.Some? then mounted.value else graceful.value;
      block.value.base == seg.base && block.value.size == seg.size
    }

    predicate Inv() {
      // one map at most; callbacks and timers belong to graceful unmounts
      && !(mounted.Some? && graceful.Some?)
      && (callback.Some? || timer.Some? ==> graceful.Some?) && (asking ==> timer.Some?)
      // four status queries at most
      && (timer.Some? ==> timer.value + polls == if asking then 4 else 3) && polls <= 4 &&
         (mounted.Some? ==> polls == 0)
      // memory that is still there is the memory of the segment, and is not on its way out
      && (Live() && block.Some? ==> Backed())
      && (Staged(Cleared) || Staged(Detached) || running.Some? ==> !Live())
      && (Staged(InFlight) ==> mounted.Some?)
    }

    function WithStage(stage: Stage): View
      requires block.Some?
    {
      this.(block := Some(block.value.(stage := stage)))
    }
  }

  const BLANK := View(None, None, None, None, false, 0, None, None)

  /** A timer task runs: it asks the master unless the segment is gone from the graceful map. */
  function WakeStep(v: View): View {
    if v.timer.None? || v.asking then v
    else if v.graceful.None? then v.(timer := None)
    else v.(asking := true, polls := v.polls + 1)
  }

  /** The master has answered: cleanup, another retry, or giving up. */
  function AnswerStep(v: View, gone: bool, requeue: bool): View {
    if !v.asking || v.timer.None? then v
    else if gone then
      v.(timer := None, asking := false, graceful := None, callback := None,
         running := if v.callback.Some? then v.callback else v.running)
    else v.(asking := false, timer := if v.timer.value > 0 && requeue then Some(v.timer.value - 1) else None)
  }

  /** Unmounting at once leaves a record to be erased. */
  function UnmountStep(v: View): View {
    if v.Staged(Recorded) then v.WithStage(Cleared).(mounted := None) else v.(mounted := None)
  }

  /** What an action does to the id it is about. */
  function ViewStep(v: View, a: Action, mountable: bool, name: nat): View {
    match a
    case MountChunk(_, table, base, size, _, _, _) =>
      if mountable then v.(mounted := Some(Segment(base, size)),
                           block := Some(Block(name, table, base, size, InFlight))) else v
    case Commit(_) => if v.Staged(InFlight) then v.WithStage(Recorded) else v
    case RollbackUnmount(_, ok) =>
      if v.Staged(InFlight) then v.WithStage(RolledBack).(mounted := if ok then None else v.mounted) else v
    case RollbackRelease(_) => if v.Staged(RolledBack) then v.(block := None) else v
    case Unmount(_, ok) => if v.mounted.Some? && ok then UnmountStep(v) else v
    case Detach(_) => if v.Staged(Cleared) then v.WithStage(Detached) else v
    case ReleaseBlock(_) => if v.Staged(Detached) then v.(block := None) else v
    case Graceful(_, table, ok) =>
      if v.mounted.Some? && ok then v.(mounted := None, graceful := v.mounted, callback := Some(table),
                                       timer := Some(3)) else v
    case TimerWake(_) => WakeStep(v)
    case TimerAnswer(_, gone, requeue) => AnswerStep(v, gone, requeue)
    case Callback(_) =>
      (if v.Staged(Recorded) && v.running == Some(v.block.value.table) then v.WithStage(Detached)
       else v).(running := None)
    case CloseMaps => v
    case TearRelease(_) => if v.Staged(Recorded) then v.(block := None) else v
  }

  /** What teardown does to every id before any memory goes. */
  function Ended(v: View): View {
    v.(mounted := None, graceful := None, callback := None, timer := None)
  }

  lemma ViewStepKeeps(v: View, a: Action, mountable: bool, name: nat)
    requires v.Inv() && (a.MountChunk? ==> v == BLANK) && (a.Unmount? || a.Graceful? ==> !v.Hidden())
    ensures ViewStep(v, a, mountable, name).Inv()
  {
  }

  // ----- the client -----

  datatype State = State(views: map<Id, View>, next: nat, log: Log<nat>, closed: bool)

  function Get(s: State, id: Id): View {
    if id in s.views then s.views[id] else BLANK
  }

  /** No call is in the middle of its work: teardown is for the sole owner of a quiet client. */
  ghost predicate Quiet(s: State) {
    forall id <- s.views ::
      var v := s.views[id]; v.running.None? && !v.asking && (v.block.Some? ==> v.Staged(Recorded))
  }

  /**
   UUIDs are fresh and the operating system hands out memory whose end is an address; an id is
   unmounted by others only once its mount call has recorded it; a rollback first tries to unmount its
   own chunk and then releases it; teardown starts in a quiet client.
   */
  ghost predicate Plausible(s: State, a: Action) {
    match a
    case MountChunk(id, _, base, size, _, _, _) => id !in s.views && base + size < WORD_SPAN
    case Unmount(id, _) => !Get(s, id).Hidden()
    case Graceful(id, _, _) => !Get(s, id).Hidden()
    case RollbackUnmount(id, _) => Get(s, id).Staged(InFlight)
    case RollbackRelease(id) => Get(s, id).Staged(RolledBack)
    case CloseMaps => Quiet(s)
    case _ => true
  }

  /** The overlap test of the mount code, with both ends computed modulo 2^64. */
  predicate Collide(seg: Segment, base: Word, size: Word) {
    var r1, r2 := AddW(seg.base, seg.size), AddW(base, size);
    (if seg.base > base then seg.base else base) < (if r1 < r2 then r1 else r2)
  }

  ghost predicate Free(s: State, base: Word, size: Word) {
    forall id <- s.views :: s.views[id].mounted.Some? ==> !Collide(s.views[id].mounted.value, base, size)
  }

  ghost predicate Mountable(s: State, a: Action) {
    a.MountChunk? && a.base != 0 && a.size != 0 && a.size <= a.maxMr && Free(s, a.base, a.size) && a.registered &&
        a.master
  }

  /** The memory calls of an action. */
  function LogStep(log: Log<nat>, v: View, a: Action, mountable: bool, name: nat): Log<nat> {
    match a
    case MountChunk(_, _, _, _, _, _, _) => if mountable then Acquired(log, name)
        else Released(Acquired(log, name), name)
    case RollbackRelease(_) => if v.Staged(RolledBack) then Released(log, v.block.value.name) else log
    case ReleaseBlock(_) => if v.Staged(Detached) then Released(log, v.block.value.name) else log
    case TearRelease(_) => if v.Staged(Recorded) then Released(log, v.block.value.name) else log
    case _ => log
  }

  /** Teardown first empties both maps; from then on only its own releases have an effect. */
  ghost function Step(s: State, a: Action): State {
    if a.CloseMaps? then
      if s.closed then s else s.(views := map id | id in s.views :: Ended(s.views[id]), closed := true)
    else if s.closed != a.TearRelease? then s
    else
      var v, ok := Get(s, a.id), Mountable(s, a);
      var v' := ViewStep(v, a, ok, s.next);
      State(if v' == v then s.views else s.views[a.id := v'],
            if a.MountChunk? then s.next + 1 else s.next, LogStep(s.log, v, a, ok, s.next), s.closed)
  }

  ghost predicate Next(s: State, a: Action, s': State) {
    Plausible(s, a) && s' == Step(s, a)
  }

  // ----- the invariant -----

  ghost predicate Owned(s: State, n: nat) {
    exists id :: id in s.views && s.views[id].block.Some? && s.views[id].block.value.name == n
  }

  ghost predicate Apart(a: Segment, b: Segment) {
    a.base + a.size <= b.base || b.base + b.size <= a.base
  }

  ghost predicate Proper(seg: Segment) {
    seg.size > 0 && seg.base + seg.size < WORD_SPAN
  }

  /** Mounted segments are real ranges and share no byte. */
  ghost predicate SegmentsDisjoint(s: State) {
    && (forall id <- s.views :: s.views[id].mounted.Some? ==> Proper(s.views[id].mounted.value))
    && (forall id <- s.views, j <- s.views | id != j && s.views[id].mounted.Some? && s.views[j].mounted.Some? ::
          Apart(s.views[id].mounted.value, s.views[j].mounted.value))
  }

  /** Exactly the memory of the views is held, each piece once. */
  ghost predicate MemoryInv(s: State) {
    && Disciplined(s.log)
    && (forall n: nat :: Held(s.log, n) == if Owned(s, n) then 1 else 0)
    && (forall id <- s.views :: s.views[id].block.Some? ==> s.views[id].block.value.name < s.next)
    && (forall id <- s.views, j <- s.views | s.views[id].block.Some? && s.views[j].block.Some? ::
          s.views[id].block.value.name == s.views[j].block.value.name ==> id == j)
  }

  /** After teardown has emptied the maps no id is live. */
  ghost predicate ViewsInv(s: State) {
    (forall id <- s.views :: s.views[id].Inv()) && (s.closed ==> forall id <- s.views :: !s.views[id].Live())
  }

  ghost predicate Inv(s: State) {
    SegmentsDisjoint(s) && MemoryInv(s) && ViewsInv(s)
  }

  const START := State(map[], 0, Fresh, false)

  lemma CollideExact(seg: Segment, base: Word, size: Word)
    requires Proper(seg) && Proper(Segment(base, size))
    ensures Collide(seg, base, size) <==> !Apart(seg, Segment(base, size))
  {
  }

  lemma DisjointKept(s: State, a: Action)
    requires SegmentsDisjoint(s) && Plausible(s, a)
    ensures SegmentsDisjoint(Step(s, a))
  {
    var t := Step(s, a);
    if a.MountChunk? && Mountable(s, a) && !s.closed {
      forall id <- s.views | s.views[id].mounted.Some?
        ensures Apart(s.views[id].mounted.value, Segment(a.base, a.size)) {
        CollideExact(s.views[id].mounted.value, a.base, a.size);
      }
    } else {
      forall id <- t.views | t.views[id].mounted.Some?
        ensures id in s.views && t.views[id].mounted == s.views[id].mounted {
        MountedFrom(s, a, id);
      }
    }
  }

  /** Only a mount puts an id into the map. */
  lemma MountedFrom(s: State, a: Action, id: Id)
    requires !(a.MountChunk? && Mountable(s, a) && !s.closed)
    requires id in Step(s, a).views && Step(s, a).views[id].mounted.Some?
    ensures id in s.views && Step(s, a).views[id].mounted == s.views[id].mounted
  {
  }

  // ----- memory: names behave -----

  function NameOf(v: View): Option<nat> {
    if v.block.Some? then Some(v.block.value.name) else None
  }

  lemma MemoryKept(s: State, a: Action)
    requires MemoryInv(s) && Plausible(s, a)
    ensures MemoryInv(Step(s, a))
  {
    var t := Step(s, a);
    if a.CloseMaps? || s.closed != a.TearRelease? {
      SameNames(s, t);
    } else if a.MountChunk? {
      NewName(s, a);
    } else if NameOf(Get(t, a.id)) == NameOf(Get(s, a.id)) {
      SameNames(s, t);
    } else {
      OneNameLess(s, a.id, t);
    }
  }

  lemma SameNames(s: State, t: State)
    requires MemoryInv(s) && t.log == s.log && t.next == s.next
    requires forall id: Id :: NameOf(Get(t, id)) == NameOf(Get(s, id))
    ensures MemoryInv(t)
  {
    forall n: nat ensures Owned(t, n) <==> Owned(s, n) {
      if id :| id in s.views && NameOf(s.views[id]) == Some(n) { assert NameOf(Get(t, id)) == Some(n); }
      if id :| id in t.views && NameOf(t.views[id]) == Some(n) { assert NameOf(Get(s, id)) == Some(n); }
    }
    assert forall id <- t.views :: t.views[id].block.Some? ==>
             NameOf(Get(t, id)) == NameOf(Get(s, id)) == Some(t.views[id].block.value.name);
  }

  lemma OneNameLess(s: State, id: Id, t: State)
    requires MemoryInv(s) && id in s.views && s.views[id].block.Some?
    requires t.views == s.views[id := Get(t, id)] && Get(t, id).block.None? && t.next == s.next
    requires t.log == Released(s.log, s.views[id].block.value.name)
    ensures MemoryInv(t)
  {
    var gone := s.views[id].block.value.name;
    assert Owned(s, gone);
    forall n: nat ensures Owned(t, n) <==> Owned(s, n) && n != gone {
      if j :| j in s.views && NameOf(s.views[j]) == Some(n) && n != gone { assert NameOf(t.views[j]) == Some(n); }
      if j :| j in t.views && NameOf(t.views[j]) == Some(n) { assert NameOf(s.views[j]) == Some(n); }
    }
  }

  lemma NewName(s: State, a: Action)
    requires MemoryInv(s) && a.MountChunk? && a.id !in s.views && !s.closed
    ensures MemoryInv(Step(s, a))
  {
    var t := Step(s, a);
    assert !Owned(s, s.next);
    assert Held(Acquired(s.log, s.next), s.next) == 1;
    forall n: nat ensures Owned(t, n) <==> Owned(s, n) || (n == s.next && Mountable(s, a)) {
      if j :| j in s.views && NameOf(s.views[j]) == Some(n) { assert NameOf(t.views[j]) == Some(n); }
      if n == s.next && Mountable(s, a) { assert NameOf(t.views[a.id]) == Some(n); }
    }
  }

  lemma ViewsKept(s: State, a: Action)
    requires ViewsInv(s) && Plausible(s, a)
    ensures ViewsInv(Step(s, a))
  {
    if !a.CloseMaps? && s.closed == a.TearRelease? {
      ViewStepKeeps(Get(s, a.id), a, Mountable(s, a), s.next);
    }
  }

  lemma InvKept(s: State, a: Action, s': State)
    requires Inv(s) && Next(s, a, s')
    ensures Inv(s')
  {
    MemoryKept(s, a);
    DisjointKept(s, a);
    ViewsKept(s, a);
  }

  // ----- runs -----

  ghost predicate IsRun(trace: seq<State>, acts: seq<Action>) {
    && |trace| == |acts| + 1 && trace[0] == START
    && forall i :: 0 <= i < |acts| ==> Next(trace[i], acts[i], trace[i + 1])
  }

  /** The invariant holds in every state of every interleaving. */
  lemma {:induction false} ReachableInv(trace: seq<State>, acts: seq<Action>, i: nat)
    requires IsRun(trace, acts) && i <= |acts|
    ensures Inv(trace[i])
  {
    if i > 0 {
      ReachableInv(trace, acts, i - 1);
      assert Next(trace[i - 1], acts[i - 1], trace[i]);
      InvKept(trace[i - 1], acts[i - 1], trace[i]);
    }
  }

  lemma ViewInv(trace: seq<State>, acts: seq<Action>, i: nat, id: Id)
    requires IsRun(trace, acts) && i <= |acts|
    ensures Get(trace[i], id).Inv() && (trace[i].closed ==> !Get(trace[i], id).Live())
  {
    ReachableInv(trace, acts, i);
    assert id in trace[i].views ==> trace[i].views[id].Inv();
  }

  /** An action changes the view of its own id only; teardown ends every view. */
  lemma ViewAfter(s: State, a: Action, s': State, id: Id)
    requires Next(s, a, s')
    ensures Get(s', id) ==
            if a.CloseMaps? then if s.closed then Get(s, id) else Ended(Get(s, id))
            else if s.closed != a.TearRelease? || a.id != id then Get(s, id)
            else ViewStep(Get(s, id), a, Mountable(s, a), s.next)
  {
  }

  // ----- polling -----

  /** The step asks the master for the status of `id`. */
  ghost predicate Queries(s: State, a: Action, id: Id) {
    !s.closed && a == TimerWake(id) && Get(s, id).timer.Some? && !Get(s, id).asking && Get(s, id).graceful.Some?
  }

  ghost function QueryCount(trace: seq<State>, acts: seq<Action>, id: Id, n: nat): nat
    requires n <= |acts| && |trace| == |acts| + 1
  {
    if n == 0 then 0 else QueryCount(trace, acts, id, n - 1) + if Queries(trace[n - 1], acts[n - 1], id) then 1 else 0
  }

  lemma {:induction false} PollsAreQueries(trace: seq<State>, acts: seq<Action>, id: Id, n: nat)
    requires IsRun(trace, acts) && n <= |acts|
    ensures Get(trace[n], id).polls == QueryCount(trace, acts, id, n)
  {
    if n > 0 {
      PollsAreQueries(trace, acts, id, n - 1);
      assert Next(trace[n - 1], acts[n - 1], trace[n]);
      ViewAfter(trace[n - 1], acts[n - 1], trace[n], id);
    }
  }

  /** Over any run, each graceful unmount asks the master at most four times. */
  lemma AtMostFourQueries(trace: seq<State>, acts: seq<Action>, id: Id)
    requires IsRun(trace, acts)
    ensures QueryCount(trace, acts, id, |acts|) <= 4
  {
    PollsAreQueries(trace, acts, id, |acts|);
    ViewInv(trace, acts, |acts|, id);
  }

  // ----- when memory is released -----

  /** Whatever releases memory, teardown included, outside a rollback its id has left both maps before. */
  lemma ReleasedAfterUnmount(s: State, a: Action, s': State, id: Id)
    requires Inv(s) && Next(s, a, s')
    requires Get(s, id).block.Some? && !Get(s, id).Hidden() && Get(s', id).block.None?
    ensures !Get(s, id).Live()
  {
    ViewAfter(s, a, s', id);
    assert s.views[id].Inv();
  }

  /** An id that left both maps never comes back. */
  lemma {:induction false} GoneForGood(trace: seq<State>, acts: seq<Action>, i: nat, j: nat, id: Id)
    requires IsRun(trace, acts) && i <= j <= |acts|
    requires id in trace[i].views && !trace[i].views[id].Live()
    ensures id in trace[j].views && !trace[j].views[id].Live()
    decreases j - i
  {
    if i < j {
      GoneForGood(trace, acts, i, j - 1, id);
      assert Next(trace[j - 1], acts[j - 1], trace[j]);
      ViewAfter(trace[j - 1], acts[j - 1], trace[j], id);
    }
  }

  /** Every piece of memory is acquired exactly once. */
  lemma {:induction false} AcquiredOnce(trace: seq<State>, acts: seq<Action>, n: nat, name: nat)
    requires IsRun(trace, acts) && n <= |acts|
    ensures Acquisitions(trace[n].log, name) == if name < trace[n].next then 1 else 0
  {
    if n > 0 {
      AcquiredOnce(trace, acts, n - 1, name);
      assert Next(trace[n - 1], acts[n - 1], trace[n]);
    }
  }

  /** No memory is left: teardown has come to its end. */
  ghost predicate Drained(s: State) {
    s.closed && forall id <- s.views :: s.views[id].block.None?
  }

  /** At the end of teardown no id is live and every piece of memory has been released exactly once. */
  lemma AllReleased(trace: seq<State>, acts: seq<Action>, n: nat, name: nat, id: Id)
    requires IsRun(trace, acts) && n <= |acts| && Drained(trace[n])
    ensures Held(trace[n].log, name) == 0
    ensures Releases(trace[n].log, name) == if name < trace[n].next then 1 else 0
    ensures !Get(trace[n], id).Live()
  {
    ReachableInv(trace, acts, n);
    ViewInv(trace, acts, n, id);
    AcquiredOnce(trace, acts, n, name);
    Conservation(trace[n].log, trace[n].log, name);
    assert !Owned(trace[n], name);
  }

  // ----- rollbacks that cannot unmount -----

  /** The rollback of `id` was refused its unmount and released the memory all the same. */
  ghost predicate Stranded(acts: seq<Action>, n: nat, id: Id)
    requires n <= |acts|
  {
    exists k, m :: 0 <= k < m < n && acts[k] == RollbackUnmount(id, false) && acts[m] == RollbackRelease(id)
  }

  /** Memory that was rolled back does not come back. */
  lemma {:induction false} RolledBackStaysGone(trace: seq<State>, acts: seq<Action>, m: nat, n: nat, id: Id)
    requires IsRun(trace, acts) && m < n <= |acts| && acts[m] == RollbackRelease(id)
    ensures id in trace[n].views && trace[n].views[id].block.None?
    decreases n - m
  {
    assert Next(trace[n - 1], acts[n - 1], trace[n]);
    ViewAfter(trace[n - 1], acts[n - 1], trace[n], id);
    if m < n - 1 {
      RolledBackStaysGone(trace, acts, m, n - 1, id);
    } else {
      ViewInv(trace, acts, m, id);
      ClosedIsQuiet(trace, acts, m, id);
    }
  }

  /** Once the maps are closed no chunk is in the hands of a mount call. */
  lemma {:induction false} ClosedIsQuiet(trace: seq<State>, acts: seq<Action>, n: nat, id: Id)
    requires IsRun(trace, acts) && n <= |acts|
    ensures trace[n].closed ==> !Get(trace[n], id).Hidden()
  {
    if n > 0 {
      ClosedIsQuiet(trace, acts, n - 1, id);
      assert Next(trace[n - 1], acts[n - 1], trace[n]);
      ViewAfter(trace[n - 1], acts[n - 1], trace[n], id);
    }
  }

  /** A rolled-back chunk has been through its unmount; if that was granted, the id is not live. */
  lemma {:induction false} RolledBackFrom(trace: seq<State>, acts: seq<Action>, n: nat, id: Id)
    returns (k: nat, ok: bool)
    requires IsRun(trace, acts) && n <= |acts| && Get(trace[n], id).Staged(RolledBack)
    ensures k < n && acts[k] == RollbackUnmount(id, ok) && (ok ==> !Get(trace[n], id).Live())
  {
    assert n > 0;
    assert Next(trace[n - 1], acts[n - 1], trace[n]);
    ViewAfter(trace[n - 1], acts[n - 1], trace[n], id);
    ViewInv(trace, acts, n - 1, id);
    if Get(trace[n - 1], id).Staged(RolledBack) {
      k, ok := RolledBackFrom(trace, acts, n - 1, id);
    } else {
      k, ok := n - 1, acts[n - 1].ok;
    }
  }

  lemma {:induction false} UnbackedWasStranded(trace: seq<State>, acts: seq<Action>, n: nat, id: Id)
    requires IsRun(trace, acts) && n <= |acts| && Get(trace[n], id).Live() && Get(trace[n], id).block.None?
    ensures Stranded(acts, n, id)
  {
    assert n > 0;
    assert Next(trace[n - 1], acts[n - 1], trace[n]);
    ViewAfter(trace[n - 1], acts[n - 1], trace[n], id);
    ViewInv(trace, acts, n - 1, id);
    if Get(trace[n - 1], id).block.None? {
      UnbackedWasStranded(trace, acts, n - 1, id);
      var k, m :| 0 <= k < m < n - 1 && acts[k] == RollbackUnmount(id, false) && acts[m] == RollbackRelease(id);
    } else {
      var k, ok := RolledBackFrom(trace, acts, n - 1, id);
      assert acts[n - 1] == RollbackRelease(id) && acts[k] == RollbackUnmount(id, false);
    }
  }

  /**
   In every state of every run, a live id lacks its memory exactly when its own mount call rolled it
   back, the unmount of that rollback was answered with a failure, and the memory was released.
   */
  lemma UnbackedIffStranded(trace: seq<State>, acts: seq<Action>, n: nat, id: Id)
    requires IsRun(trace, acts) && n <= |acts| && Get(trace[n], id).Live()
    ensures !Get(trace[n], id).Backed() <==> Stranded(acts, n, id)
  {
    ViewInv(trace, acts, n, id);
    if Get(trace[n], id).block.None? { UnbackedWasStranded(trace, acts, n, id); }
    if k, m :| 0 <= k < m < n && acts[k] == RollbackUnmount(id, false) && acts[m] == RollbackRelease(id) {
      RolledBackStaysGone(trace, acts, m, n, id);
    }
  }

  // ----- the actions of one call -----

  /** A change of one view that is the action's own is the action's step. */
  lemma OneViewChanged(s: State, a: Action, t: State)
    requires !a.CloseMaps? && s.closed == a.TearRelease? && !a.MountChunk? && a.id in s.views
    requires t.views == s.views[a.id := ViewStep(s.views[a.id], a, false, s.next)]
    requires t.next == s.next && t.log == LogStep(s.log, s.views[a.id], a, false, s.next) && t.closed == s.closed
    ensures t == Step(s, a)
  {
  }

  lemma NothingUnmounted(s: State, id: Id, ok: bool)
    requires !ok || Get(s, id).mounted.None?
    ensures Step(s, Unmount(id, ok)) == s
  {
  }

  lemma OneViewAdded(s: State, a: Action, t: State, ok: bool)
    requires !s.closed && a.MountChunk? && a.id !in s.views && ok == Mountable(s, a)
    requires t.views == if ok then s.views[a.id := ViewStep(BLANK, a, true, s.next)] else s.views
    requires t.next == s.next + 1 && t.log == LogStep(s.log, BLANK, a, ok, s.next) && !t.closed
    ensures t == Step(s, a)
  {
  }

  /** The state after a list of actions. */
  ghost function After(s: State, acts: seq<Action>): State {
    if acts == [] then s else Step(After(s, acts[..|acts| - 1]), acts[|acts| - 1])
  }

  ghost predicate AllPlausible(s: State, acts: seq<Action>) {
    acts == [] ||
    (AllPlausible(s, acts[..|acts| - 1]) && Plausible(After(s, acts[..|acts| - 1]), acts[|acts| - 1]))
  }

  /** These actions, possible one after the other, lead from one state to the other. */
  ghost predicate Leads(s: State, acts: seq<Action>, t: State) {
    AllPlausible(s, acts) && t == After(s, acts)
  }

  lemma LeadsOne(s: State, acts: seq<Action>, t: State, a: Action, u: State)
    requires Leads(s, acts, t) && Plausible(t, a) && u == Step(t, a)
    ensures Leads(s, acts + [a], u)
  {
    assert (acts + [a])[..|acts|] == acts;
  }

  lemma {:induction false} LeadsOn(s: State, a: seq<Action>, t: State, b: seq<Action>, u: State)
    requires Leads(s, a, t) && Leads(t, b, u)
    ensures Leads(s, a + b, u)
  {
    if b == [] {
      assert a + b == a;
    } else {
      var n := |b| - 1;
      LeadsOn(s, a, t, b[..n], After(t, b[..n]));
      LeadsOne(s, a + b[..n], After(t, b[..n]), b[n], u);
      assert a + b == a + b[..n] + [b[n]];
    }
  }

  lemma OneThenLeads(s: State, a: Action, t: State, b: seq<Action>, u: State)
    requires Plausible(s, a) && t == Step(s, a) && Leads(t, b, u)
    ensures Leads(s, [a] + b, u)
  {
    LeadsOne(s, [], s, a, t);
    assert [] + [a] == [a];
    LeadsOn(s, [a], t, b, u);
  }

  /** A call is part of a run: its actions keep the invariant. */
  lemma {:induction false} LeadsKeepsInv(s: State, acts: seq<Action>, t: State)
    requires Inv(s) && Leads(s, acts, t)
    ensures Inv(t)
  {
    if acts != [] {
      var n := |acts| - 1;
      LeadsKeepsInv(s, acts[..n], After(s, acts[..n]));
      InvKept(After(s, acts[..n]), acts[n], t);
    }
  }

  /** The states passed through. */
  ghost function TraceOf(s: State, acts: seq<Action>): (trace: seq<State>)
    ensures |trace| == |acts| + 1 && trace[0] == s && trace[|acts|] == After(s, acts)
  {
    if acts == [] then [s] else TraceOf(s, acts[..|acts| - 1]) + [After(s, acts)]
  }

  /** Actions that lead anywhere from the start form a run. */
  lemma {:induction false} LeadsIsRun(acts: seq<Action>, t: State)
    requires Leads(START, acts, t)
    ensures IsRun(TraceOf(START, acts), acts) && TraceOf(START, acts)[|acts|] == t
  {
    if acts != [] {
      var n := |acts| - 1;
      var before := After(START, acts[..n]);
      LeadsIsRun(acts[..n], before);
      var trace := TraceOf(START, acts);
      forall i | 0 <= i < |acts| ensures Next(trace[i], acts[i], trace[i + 1]) {
        if i < n { assert Next(TraceOf(START, acts[..n])[i], acts[..n][i], TraceOf(START, acts[..n])[i + 1]); }
      }
    }
  }

  /** A mounted chunk that cannot be unmounted when its call rolls back: the id stays mounted, its memory is gone. */
  lemma StrandedExample()
    ensures var acts := [MountChunk(7, MappedTable, 0x10000, 0x1000, 0x1000, true, true), RollbackUnmount(7, false),
                         RollbackRelease(7)];
            && AllPlausible(START, acts)
            && var v := Get(After(START, acts), 7); v.mounted == Some(Segment(0x10000, 0x1000)) && v.block == None
  {
    var mount := MountChunk(7, MappedTable, 0x10000, 0x1000, 0x1000, true, true);
    var unmount, release := RollbackUnmount(7, false), RollbackRelease(7);
    var s1 := Step(START, mount);
    var s2 := Step(s1, unmount);
    assert Mountable(START, mount);
    LeadsOne(START, [], START, mount, s1);
    assert [] + [mount] == [mount];
    LeadsOne(START, [mount], s1, unmount, s2);
    assert [mount] + [unmount] == [mount, unmount];
    LeadsOne(START, [mount, unmount], s2, release, Step(s2, release));
    assert [mount, unmount] + [release] == [mount, unmount, release];
  }
}
