/** What a ranged read guarantees about memory, and the shared-memory variant built on it. */
module RangedReadTheorems {
  import opened Machine
  import opened Store
  import opened RangedRead
  import opened ShmMapping

  // ----- the list of writes is exactly what the fragments cause, in order -----

  predicate Before(a: Write, b: Write) {
    a.i < b.i || (a.i == b.i && (a.j < b.j || (a.j == b.j && a.k < b.k)))
  }

  ghost predicate InOrder(ws: seq<Write>) {
    forall x, y :: 0 <= x < y < |ws| ==> Before(ws[x], ws[y])
  }

  ghost predicate Caused(q: Request, e: Env, w: Write) {
    Consistent(e) && InShape(q, e, w.i, w.j, w.k) && WriteAt(q, e, w.i, w.j, w.k) == [w]
  }

  /** A fragment's write is in the list of its row, its buffer and the whole request. */
  lemma {:induction false} RowLists(q: Request, e: Env, i: nat, j: nat, n: nat, k: nat)
    requires Consistent(e) && KeyInShape(q, e, i, j + 1) && k < n <= RowLength(q, i, j)
    requires WriteAt(q, e, i, j, k) != []
    ensures WriteAt(q, e, i, j, k)[0] in RowWrites(q, e, i, j, n)
  {
    if k < n - 1 { RowLists(q, e, i, j, n - 1, k); }
  }

  lemma {:induction false} BufferLists(q: Request, e: Env, i: nat, n: nat, j: nat, k: nat)
    requires Consistent(e) && KeyInShape(q, e, i, n) && j < n && k < RowLength(q, i, j)
    requires WriteAt(q, e, i, j, k) != []
    ensures WriteAt(q, e, i, j, k)[0] in BufferWrites(q, e, i, n)
  {
    if j < n - 1 {
      BufferLists(q, e, i, n - 1, j, k);
    } else {
      RowLists(q, e, i, n - 1, RowLength(q, i, n - 1), k);
    }
  }

  lemma {:induction false} RequestLists(q: Request, e: Env, n: nat, i: nat, j: nat, k: nat)
    requires Consistent(e) && InShape(q, e, i, j, k) && i < n <= |e.bases|
    requires WriteAt(q, e, i, j, k) != []
    ensures WriteAt(q, e, i, j, k)[0] in AllWrites(q, e, n)
  {
    if i < n - 1 { RequestLists(q, e, n - 1, i, j, k); } else { BufferLists(q, e, i, |q.keys[i]|, j, k); }
  }

  /** Nothing else is in the list. */
  lemma {:induction false} RowCaused(q: Request, e: Env, i: nat, j: nat, n: nat, w: Write)
    requires Consistent(e) && KeyInShape(q, e, i, j + 1) && n <= RowLength(q, i, j) && w in RowWrites(q, e, i, j, n)
    ensures w.i == i && w.j == j && w.k < n && Caused(q, e, w)
  {
    if w in RowWrites(q, e, i, j, n - 1) { RowCaused(q, e, i, j, n - 1, w); }
  }

  lemma {:induction false} BufferCaused(q: Request, e: Env, i: nat, n: nat, w: Write)
    requires Consistent(e) && KeyInShape(q, e, i, n) && w in BufferWrites(q, e, i, n)
    ensures w.i == i && w.j < n && Caused(q, e, w)
  {
    if w in BufferWrites(q, e, i, n - 1) {
      BufferCaused(q, e, i, n - 1, w);
    } else {
      RowCaused(q, e, i, n - 1, RowLength(q, i, n - 1), w);
    }
  }

  lemma {:induction false} RequestCaused(q: Request, e: Env, n: nat, w: Write)
    requires Consistent(e) && TopOk(q, |e.bases|) && |e.caps| == |e.bases| && n <= |e.bases| && w in AllWrites(q, e, n)
    ensures w.i < n && Caused(q, e, w)
  {
    if w in AllWrites(q, e, n - 1) {
      RequestCaused(q, e, n - 1, w);
    } else {
      BufferCaused(q, e, n - 1, |q.keys[n - 1]|, w);
    }
  }

  /** The list is in execution order, so no fragment is in it twice. */
  lemma JoinOrdered(a: seq<Write>, b: seq<Write>)
    requires InOrder(a) && InOrder(b) && forall v <- a, w <- b :: Before(v, w)
    ensures InOrder(a + b)
  {
    forall x, y | 0 <= x < y < |a + b| ensures Before((a + b)[x], (a + b)[y]) {
      if x < |a| <= y { assert a[x] in a && b[y - |a|] in b; }
    }
  }

  lemma {:induction false} RowOrdered(q: Request, e: Env, i: nat, j: nat, n: nat)
    requires Consistent(e) && KeyInShape(q, e, i, j + 1) && n <= RowLength(q, i, j)
    ensures InOrder(RowWrites(q, e, i, j, n))
  {
    if n > 0 {
      RowOrdered(q, e, i, j, n - 1);
      forall v <- RowWrites(q, e, i, j, n - 1), w <- WriteAt(q, e, i, j, n - 1) ensures Before(v, w) {
        RowCaused(q, e, i, j, n - 1, v);
      }
      JoinOrdered(RowWrites(q, e, i, j, n - 1), WriteAt(q, e, i, j, n - 1));
    }
  }

  lemma {:induction false} BufferOrdered(q: Request, e: Env, i: nat, n: nat)
    requires Consistent(e) && KeyInShape(q, e, i, n)
    ensures InOrder(BufferWrites(q, e, i, n))
  {
    if n > 0 {
      var a, b := BufferWrites(q, e, i, n - 1), RowWrites(q, e, i, n - 1, RowLength(q, i, n - 1));
      BufferOrdered(q, e, i, n - 1);
      RowOrdered(q, e, i, n - 1, RowLength(q, i, n - 1));
      forall v <- a, w <- b ensures Before(v, w) {
        BufferCaused(q, e, i, n - 1, v);
        RowCaused(q, e, i, n - 1, RowLength(q, i, n - 1), w);
      }
      JoinOrdered(a, b);
    }
  }

  lemma {:induction false} RequestOrdered(q: Request, e: Env, n: nat)
    requires Consistent(e) && TopOk(q, |e.bases|) && |e.caps| == |e.bases| && n <= |e.bases|
    ensures InOrder(AllWrites(q, e, n))
  {
    if n > 0 {
      var a, b := AllWrites(q, e, n - 1), BufferWrites(q, e, n - 1, |q.keys[n - 1]|);
      RequestOrdered(q, e, n - 1);
      BufferOrdered(q, e, n - 1, |q.keys[n - 1]|);
      forall v <- a, w <- b ensures Before(v, w) {
        RequestCaused(q, e, n - 1, v);
        BufferCaused(q, e, n - 1, |q.keys[n - 1]|, w);
      }
      JoinOrdered(a, b);
    }
  }

  // ----- applying writes -----

  predicate Within(w: Write, x: nat) {
    w.addr <= x < w.addr + |w.bytes|
  }

  lemma {:induction false} ApplyOutside(mem: seq<Byte>, ws: seq<Write>, x: nat)
    requires InMemory(ws, |mem|) && x < |mem|
    requires forall n :: 0 <= n < |ws| ==> !Within(ws[n], x)
    ensures Apply(mem, ws)[x] == mem[x]
  {
    if ws != [] { ApplyOutside(mem, ws[..|ws| - 1], x); }
  }

  /** A byte written by one write and by no later one holds that write's byte. */
  lemma {:induction false} ApplyInside(mem: seq<Byte>, ws: seq<Write>, n: nat, x: nat)
    requires InMemory(ws, |mem|) && n < |ws| && Within(ws[n], x)
    requires forall m :: n < m < |ws| ==> !Within(ws[m], x)
    ensures x < |mem| && Apply(mem, ws)[x] == ws[n].bytes[x - ws[n].addr]
    decreases |ws|
  {
    if n < |ws| - 1 {
      ApplyInside(mem, ws[..|ws| - 1], n, x);
    }
  }

  // ----- the theorems about get_into_ranges -----

  /** The bytes a fragment is meant to fill. */
  ghost predicate InDestination(q: Request, e: Env, i: nat, j: nat, k: nat, x: int)
    requires InShape(q, e, i, j, k)
  {
    Valid(q, i, j, k) && e.bases[i] as int + q.dst[i][j][k] <= x < e.bases[i] as int + q.dst[i][j][k] + q.sizes[i][j][k]
  }

  /** Byte x belongs to the destination of this fragment of the request. */
  ghost predicate Owns(q: Request, e: Env, x: int, i: nat, j: nat, k: nat) {
    InShape(q, e, i, j, k) && InDestination(q, e, i, j, k, x)
  }

  /** Byte x is in the destination of one fragment at most. */
  ghost predicate OneOwner(q: Request, e: Env, x: int) {
    forall i, j, k, i', j', k' | Owns(q, e, x, i, j, k) && Owns(q, e, x, i', j', k') :: i == i' && j == j' && k == k'
  }

  ghost predicate DestinationsDisjoint(q: Request, e: Env) {
    forall x :: OneOwner(q, e, x)
  }

  /** Every write stays inside its fragment's destination and inside its buffer's capacity. */
  lemma WritesStayInside(q: Request, e: Env, w: Write)
    requires TopOk(q, |e.bases|) && |e.caps| == |e.bases| && Consistent(e) && w in AllWrites(q, e, |e.bases|)
    ensures InShape(q, e, w.i, w.j, w.k)
    ensures e.bases[w.i] <= w.addr && w.addr + |w.bytes| <= e.bases[w.i] as int + e.caps[w.i]
    ensures forall x: nat :: Within(w, x) <==> Owns(q, e, x, w.i, w.j, w.k)
  {
    RequestCaused(q, e, |e.bases|, w);
  }

  /** A read never leaves its object. */
  lemma ReadsStayInside(q: Request, e: Env, i: nat, j: nat, k: nat)
    requires Consistent(e) && InShape(q, e, i, j, k) && CellAt(q, e, i, j, k).Ok?
    ensures Valid(q, i, j, k) && e.meta(q.keys[i][j]).Ok?
    ensures q.src[i][j][k] + q.sizes[i][j][k] <= |e.objects(q.keys[i][j])|
    ensures CellAt(q, e, i, j, k) == Ok(q.sizes[i][j][k])
  {
  }

  /** Memory after all writes of a request. */
  ghost predicate Written(q: Request, e: Env, was: seq<Byte>, now: seq<Byte>) {
    && Consistent(e) && TopOk(q, |e.bases|) && |e.caps| == |e.bases|
    && InMemory(AllWrites(q, e, |e.bases|), |was|) && now == Apply(was, AllWrites(q, e, |e.bases|))
  }

  /** Bytes outside every valid fragment keep their value. */
  lemma OutsideUnchanged(q: Request, e: Env, was: seq<Byte>, now: seq<Byte>, x: nat)
    requires Written(q, e, was, now) && x < |was| && forall i, j, k :: !Owns(q, e, x, i, j, k)
    ensures x < |now| && now[x] == was[x]
  {
    var ws := AllWrites(q, e, |e.bases|);
    forall n | 0 <= n < |ws| ensures !Within(ws[n], x) {
      WritesStayInside(q, e, ws[n]);
    }
    ApplyOutside(was, ws, x);
  }

  /** With disjoint destinations every successful fragment holds its bytes of the object. */
  lemma FragmentsLand(q: Request, e: Env, was: seq<Byte>, now: seq<Byte>, i: nat, j: nat, k: nat, x: nat)
    requires Written(q, e, was, now) && DestinationsDisjoint(q, e) && InShape(q, e, i, j, k)
    requires CellAt(q, e, i, j, k).Ok? && x < q.sizes[i][j][k]
    ensures q.src[i][j][k] + x < |e.objects(q.keys[i][j])|
    ensures var at := e.bases[i] as int + q.dst[i][j][k] + x;
            at < |now| && now[at] == e.objects(q.keys[i][j])[q.src[i][j][k] + x]
  {
    var at: nat := e.bases[i] as int + q.dst[i][j][k] + x;
    var w := FragmentWrite(q, e, i, j, k, x, at);
    AllTidy(q, e);
    WriteLands(q, e, was, AllWrites(q, e, |e.bases|), w, at);
  }

  /** The write of a successful fragment carries the fragment's bytes of the object. */
  lemma FragmentWrite(q: Request, e: Env, i: nat, j: nat, k: nat, x: nat, at: nat) returns (w: Write)
    requires Consistent(e) && InShape(q, e, i, j, k) && CellAt(q, e, i, j, k).Ok? && x < q.sizes[i][j][k]
    requires at == e.bases[i] as int + q.dst[i][j][k] + x
    ensures q.src[i][j][k] + x < |e.objects(q.keys[i][j])| && w in AllWrites(q, e, |e.bases|)
    ensures Within(w, at) && w.bytes[at - w.addr] == e.objects(q.keys[i][j])[q.src[i][j][k] + x]
  {
    ReadsStayInside(q, e, i, j, k);
    w := WriteAt(q, e, i, j, k)[0];
    RequestLists(q, e, |e.bases|, i, j, k);
  }

  /** The write fills exactly the destination of its fragment. */
  ghost predicate Fills(q: Request, e: Env, w: Write) {
    forall x: nat :: Within(w, x) <==> Owns(q, e, x, w.i, w.j, w.k)
  }

  /** A list of writes in execution order, each filling its fragment. */
  ghost predicate Tidy(q: Request, e: Env, ws: seq<Write>) {
    InOrder(ws) && forall n :: 0 <= n < |ws| ==> Fills(q, e, ws[n])
  }

  lemma AllTidy(q: Request, e: Env)
    requires TopOk(q, |e.bases|) && |e.caps| == |e.bases| && Consistent(e)
    ensures Tidy(q, e, AllWrites(q, e, |e.bases|))
  {
    var ws := AllWrites(q, e, |e.bases|);
    RequestOrdered(q, e, |e.bases|);
    forall n | 0 <= n < |ws| ensures Fills(q, e, ws[n]) {
      WritesStayInside(q, e, ws[n]);
    }
  }

  /** With disjoint destinations what a write puts down stays. */
  lemma WriteLands(q: Request, e: Env, was: seq<Byte>, ws: seq<Write>, w: Write, at: nat)
    requires Tidy(q, e, ws) && DestinationsDisjoint(q, e) && InMemory(ws, |was|) && w in ws && Within(w, at)
    ensures at < |was| && Apply(was, ws)[at] == w.bytes[at - w.addr]
  {
    var n :| 0 <= n < |ws| && ws[n] == w;
    forall m | n < m < |ws| ensures !Within(ws[m], at) {
      assert Before(ws[n], ws[m]) && Fills(q, e, ws[n]) && Fills(q, e, ws[m]) && OneOwner(q, e, at);
    }
    ApplyInside(was, ws, n, at);
  }

  // ----- what a call leaves behind -----

  /** A cell of the result is the cell of its fragment. */
  lemma CellOf(q: Request, e: Env, results: seq<seq<seq<Cell>>>, was: seq<Byte>, now: seq<Byte>, i: nat, j: nat, k: nat)
    requires Served(q, e, results, was, now) && InShape(q, e, i, j, k)
    ensures i < |results| && j < |results[i]| && k < |results[i][j]| && results[i][j][k] == CellAt(q, e, i, j, k)
  {
    assert BufferDone(q, e, i, results[i]) && RowDone(q, e, i, j, results[i][j]);
  }

  /** The result reports fragment (i, j, k) as read, and x is one of its bytes. */
  ghost predicate ReadByte(q: Request, e: Env, results: seq<seq<seq<Cell>>>, i: nat, j: nat, k: nat, x: nat) {
    && InShape(q, e, i, j, k) && i < |results| && j < |results[i]| && k < |results[i][j]| && results[i][j][k].Ok?
    && Valid(q, i, j, k) && x < q.sizes[i][j][k]
  }

  /** Memory holds byte x of the fragment as the key's object has it. */
  ghost predicate HoldsByte(q: Request, e: Env, now: seq<Byte>, i: nat, j: nat, k: nat, x: nat)
    requires InShape(q, e, i, j, k) && Valid(q, i, j, k)
  {
    var at, from := e.bases[i] as int + q.dst[i][j][k] + x, q.src[i][j][k] + x;
    at < |now| && from < |e.objects(q.keys[i][j])| && now[at] == e.objects(q.keys[i][j])[from]
  }

  /**
   After a served request with disjoint destinations, every fragment reported as read holds its bytes of
   the key's object.
   */
  lemma ServedFragments(q: Request, e: Env, results: seq<seq<seq<Cell>>>, was: seq<Byte>, now: seq<Byte>)
    requires Served(q, e, results, was, now) && DestinationsDisjoint(q, e)
    ensures forall i, j, k, x | ReadByte(q, e, results, i, j, k, x) :: HoldsByte(q, e, now, i, j, k, x)
  {
    forall i, j, k, x | ReadByte(q, e, results, i, j, k, x) ensures HoldsByte(q, e, now, i, j, k, x) {
      CellOf(q, e, results, was, now, i, j, k);
      FragmentsLand(q, e, was, now, i, j, k, x);
    }
  }

  /** Every byte that is in no valid fragment is as it was. */
  lemma ServedElsewhere(q: Request, e: Env, results: seq<seq<seq<Cell>>>, was: seq<Byte>, now: seq<Byte>, x: nat)
    requires Served(q, e, results, was, now) && x < |was| && forall i, j, k :: !Owns(q, e, x, i, j, k)
    ensures x < |now| && now[x] == was[x]
  {
    OutsideUnchanged(q, e, was, now, x);
  }

  /** Every write of get_into_ranges lies inside one registered area, the one that holds its buffer. */
  lemma WritesInAreas(q: Request, e: Env, registered: seq<Area>, local: Option<Area>, w: Write)
    requires TopOk(q, |e.bases|) && Consistent(e) && Roomy(e.bases, registered, local, e.caps)
    requires w in AllWrites(q, e, |e.bases|) && |w.bytes| > 0
    ensures w.i < |e.bases| && AreaOf(e.bases[w.i], registered, local).Some?
    ensures var a := AreaOf(e.bases[w.i], registered, local).value;
            && (a in registered || local == Some(a))
            && a.base <= w.addr && w.addr + |w.bytes| <= a.base + a.size
  {
    WritesStayInside(q, e, w);
  }

  // ----- the shared-memory variant -----

  /** Same shape, every cell the same error. */
  ghost predicate AllErrors(results: seq<seq<seq<Cell>>>, shape: seq<seq<seq<Cell>>>, error: ErrorCode) {
    && |results| == |shape|
    && forall i :: 0 <= i < |results| ==>
         && |results[i]| == |shape[i]|
         && forall j :: 0 <= j < |results[i]| ==>
              |results[i][j]| == |shape[i][j]| &&
              forall k :: 0 <= k < |results[i][j]| ==> results[i][j][k] == Err(error)
  }

  method FillWithError(shape: seq<seq<seq<Cell>>>, error: ErrorCode) returns (results: seq<seq<seq<Cell>>>)
    ensures AllErrors(results, shape, error)
  {
    results := seq(|shape|, i requires 0 <= i < |shape| =>
                 seq(|shape[i]|, j requires 0 <= j < |shape[i]| => seq(|shape[i][j]|, _ => Err(error))));
  }

  /** Every cell of the validated shape is invalid. */
  ghost predicate Refused(q: Request, results: seq<seq<seq<Cell>>>)
    requires |q.keys| == |q.dst| == |q.src| == |q.sizes|
  {
    && |results| == |q.keys|
    && forall i :: 0 <= i < |results| ==>
         |results[i]| == |q.keys[i]| &&
         forall j :: 0 <= j < |results[i]| ==> results[i][j] == seq(RowLength(q, i, j), _ => INVALID)
  }

  /** Some buffer, as large as its valid fragments need, lies in none of the client's mappings. */
  ghost predicate Untranslatable(q: Request, dummies: seq<Word>, shms: seq<MappedShm>)
    requires TopOk(q, |dummies|)
  {
    exists i, size: Word :: 0 <= i < |dummies| && LargestEnd(q, i, |q.keys[i]|, size) &&
        Scan(shms, dummies[i], size, 0).None?
  }

  ghost predicate Anything(q: Request) {
    |q.keys| == |q.dst| == |q.src| == |q.sizes| && exists i :: 0 <= i < |q.keys| && SomeValid(q, i, |q.keys[i]|)
  }

  /** The environment a shared-memory read runs in: translated buffers, capacities just large enough. */
  ghost predicate ShmEnv(q: Request, dummies: seq<Word>, shms: seq<MappedShm>, e: Env) {
    && TopOk(q, |e.bases|) && |e.bases| == |e.caps| == |dummies| && e.capsGiven
    && forall i :: 0 <= i < |dummies| ==>
         LargestEnd(q, i, |q.keys[i]|, e.caps[i]) && InOneMapping(shms, dummies[i], e.caps[i], e.bases[i])
  }

  /**
   get_into_ranges_shm_helper. It reads only when the request is well-formed, the client is known,
   some fragment is valid and every buffer translates; then it serves the request, from the store's own
   metadata, objects and answers, in translated buffers of just the needed capacity.
   */
  method GetIntoRangesShm(mem: array<Byte>, q: Request, dummies: seq<Word>, client: Option<seq<MappedShm>>,
                          meta: string -> Result<Meta, ErrorCode>, objects: string -> seq<Byte>,
                          replies: (nat, nat, nat) -> ReadReply, known: map<string, Result<Meta, ErrorCode>>)
    returns (results: seq<seq<seq<Cell>>>, ghost served: Option<Env>)
    requires client.Some? ==> AllMapped(client.value)
    requires client.Some? ==>
               forall m :: 0 <= m < |client.value| ==> client.value[m].buffer + client.value[m].size <= mem.Length
    requires forall key :: meta(key).Ok? ==> |objects(key)| == meta(key).value.total
    requires forall key <- known :: known[key] == meta(key)
    modifies mem
    ensures served.Some? ==> TopOk(q, |dummies|) && client.Some? && Anything(q)
    ensures served.None? ==> mem[..] == old(mem[..])
    ensures served.None? && TopOk(q, |dummies|) ==>
              && Refused(q, results)
              && (client.None? || !Anything(q) || Untranslatable(q, dummies, client.value))
    ensures !TopOk(q, |dummies|) ==> results == ErrorResults(q, |dummies|, InvalidParams)
    ensures served.Some? ==>
              var e := served.value;
              && e == Env(e.bases, e.caps, true, meta, objects, replies) && ShmEnv(q, dummies, client.value, e)
              && Served(q, e, results, old(mem[..]), mem[..])
  {
    served := None;
    var p := Prepare(q, |dummies|);
    if !p.topValid {
      return p.results, served;
    }
    var ptrs;
    results, ptrs := TranslateBuffers(q, dummies, client, p);
    if ptrs.None? {
      return;
    }
    var e := Env(ptrs.value, p.required, true, meta, objects, replies);
    results := ServeShm(mem, q, dummies, client.value, e, p, known);
    served := Some(e);
  }

  method ServeShm(mem: array<Byte>, q: Request, dummies: seq<Word>, shms: seq<MappedShm>, e: Env, p: Prepared,
                  known: map<string, Result<Meta, ErrorCode>>)
    returns (results: seq<seq<seq<Cell>>>)
    requires AllMapped(shms) && forall m :: 0 <= m < |shms| ==> shms[m].buffer + shms[m].size <= mem.Length
    requires ShmEnv(q, dummies, shms, e) && Consistent(e) && CacheSound(known, e) &&
             |p.results| == |p.valid| == |e.bases|
    requires forall i :: 0 <= i < |e.bases| ==> RowsShaped(q, i, p.results[i], p.valid[i], |q.keys[i]|)
    modifies mem
    ensures Served(q, e, results, old(mem[..]), mem[..])
  {
    forall i | 0 <= i < |e.bases| ensures e.bases[i] + e.caps[i] <= mem.Length {
      var m := MappingOf(shms, dummies[i], e.caps[i], e.bases[i]);
    }
    var asked;
    results, asked := ServeRanges(mem, q, e, p, known);
  }

  /** The checks between validation and reading: the client's mappings, some valid fragment, the translation. */
  method TranslateBuffers(q: Request, dummies: seq<Word>, client: Option<seq<MappedShm>>, p: Prepared)
    returns (refusal: seq<seq<seq<Cell>>>, ptrs: Option<seq<Word>>)
    requires TopOk(q, |dummies|) && |p.results| == |p.valid| == |p.required| == |dummies|
    requires forall i :: 0 <= i < |dummies| ==>
               RowsShaped(q, i, p.results[i], p.valid[i], |q.keys[i]|) && LargestEnd(q, i, |q.keys[i]|, p.required[i])
    requires p.anyValid <==> Anything(q)
    ensures Refused(q, refusal)
    ensures ptrs.None? ==> client.None? || !Anything(q) || Untranslatable(q, dummies, client.value)
    ensures ptrs.Some? ==> client.Some? && Anything(q) && |ptrs.value| == |dummies|
    ensures ptrs.Some? ==>
              forall i :: 0 <= i < |dummies| ==> InOneMapping(client.value, dummies[i], p.required[i], ptrs.value[i])
  {
    refusal := p.results;
    if client.None? {
      refusal := FillWithError(p.results, InvalidParams);
      return refusal, None;
    }
    if !p.anyValid {
      return refusal, None;
    }
    var r := MapAddrs(client.value, dummies, p.required);
    if r.Err? {
      refusal := FillWithError(p.results, r.error);
      var i :| 0 <= i < |dummies| && Scan(client.value, dummies[i], p.required[i], 0).None?;
      assert LargestEnd(q, i, |q.keys[i]|, p.required[i]);
      return refusal, None;
    }
    return refusal, Some(r.value);
  }

  lemma MappingOf(shms: seq<MappedShm>, dummy: Word, size: Word, ptr: Word) returns (m: nat)
    requires AllMapped(shms) && InOneMapping(shms, dummy, size, ptr)
    ensures m < |shms| && shms[m].buffer <= ptr && ptr + size <= shms[m].buffer + shms[m].size
    ensures ptr - shms[m].buffer == dummy - shms[m].dummyBase
  {
    m :| m < |shms| && MapRange(shms[m], dummy, 0, size) == Some(ptr);
    MapRangeExact(shms[m], dummy, 0, size);
  }

  /** The capacity is exactly the largest end, so the capacity check rejects no valid fragment. */
  lemma ShmRejectsNoValidFragment(q: Request, dummies: seq<Word>, shms: seq<MappedShm>, e: Env, i: nat, j: nat, k: nat)
    requires ShmEnv(q, dummies, shms, e) && InShape(q, e, i, j, k)
    ensures Attempted(q, e, i, j, k) <==> Valid(q, i, j, k)
  {
  }

  /** Every byte written lies in one of the client's mapped segments. */
  lemma ShmWritesMapped(q: Request, dummies: seq<Word>, shms: seq<MappedShm>, e: Env, w: Write) returns (m: nat)
    requires ShmEnv(q, dummies, shms, e) && Consistent(e) && AllMapped(shms) && w in AllWrites(q, e, |e.bases|)
    ensures m < |shms| && shms[m].buffer <= w.addr && w.addr + |w.bytes| <= shms[m].buffer + shms[m].size
  {
    WritesStayInside(q, e, w);
    m := MappingOf(shms, dummies[w.i], e.caps[w.i], e.bases[w.i]);
  }

  /** The capacity is no larger than needed: it is 0 or the end of a valid fragment. */
  lemma ShmCapacityTight(q: Request, dummies: seq<Word>, shms: seq<MappedShm>, e: Env, i: nat) returns (j: nat, k: nat)
    requires ShmEnv(q, dummies, shms, e) && i < |e.bases| && e.caps[i] > 0
    ensures InShape(q, e, i, j, k) && Valid(q, i, j, k) && q.dst[i][j][k] + q.sizes[i][j][k] == e.caps[i]
  {
    j, k :| 0 <= j < |q.keys[i]| && 0 <= k < RowLength(q, i, j) && Valid(q, i, j, k) &&
            q.dst[i][j][k] + q.sizes[i][j][k] == e.caps[i];
  }

  // ----- in the client's own addresses -----

  /** Byte x of the client's address space belongs to the destination of this fragment. */
  ghost predicate OwnsDummy(q: Request, e: Env, dummies: seq<Word>, x: int, i: nat, j: nat, k: nat) {
    && InShape(q, e, i, j, k) && |dummies| == |e.bases| && Valid(q, i, j, k)
    && dummies[i] as int + q.dst[i][j][k] <= x < dummies[i] as int + q.dst[i][j][k] + q.sizes[i][j][k]
  }

  /** The fragments' destinations are disjoint as the client sees them. */
  ghost predicate DummyDestinationsDisjoint(q: Request, e: Env, dummies: seq<Word>) {
    forall x :: OneDummyOwner(q, e, dummies, x)
  }

  ghost predicate OneDummyOwner(q: Request, e: Env, dummies: seq<Word>, x: int) {
    forall i, j, k, i', j', k' | OwnsDummy(q, e, dummies, x, i, j, k) && OwnsDummy(q, e, dummies, x, i', j', k') ::
      i == i' && j == j' && k == k'
  }

  /** A real byte of a destination is the translation of its dummy byte, by the mapping of its buffer. */
  lemma DummyByte(q: Request, e: Env, dummies: seq<Word>, shms: seq<MappedShm>, x: int, i: nat, j: nat, k: nat)
    returns (m: nat)
    requires ShmEnv(q, dummies, shms, e) && AllMapped(shms) && Owns(q, e, x, i, j, k)
    ensures m < |shms| && shms[m].buffer <= x < shms[m].buffer + shms[m].size
    ensures OwnsDummy(q, e, dummies, x - shms[m].buffer + shms[m].dummyBase, i, j, k)
  {
    m := MappingOf(shms, dummies[i], e.caps[i], e.bases[i]);
    assert LargestEnd(q, i, |q.keys[i]|, e.caps[i]);
  }

  /** Disjoint for the client means disjoint in memory, if the mapped segments are. */
  lemma DummyDisjointMeansDisjoint(q: Request, e: Env, dummies: seq<Word>, shms: seq<MappedShm>)
    requires ShmEnv(q, dummies, shms, e) && AllMapped(shms) && BuffersDisjoint(shms) &&
             DummyDestinationsDisjoint(q, e, dummies)
    ensures DestinationsDisjoint(q, e)
  {
    forall x ensures OneOwner(q, e, x) {
      forall i, j, k, i', j', k' | Owns(q, e, x, i, j, k) && Owns(q, e, x, i', j', k')
        ensures i == i' && j == j' && k == k' {
        SameOwner(q, e, dummies, shms, x, i, j, k, i', j', k');
      }
    }
  }

  lemma SameOwner(q: Request, e: Env, dummies: seq<Word>, shms: seq<MappedShm>, x: int,
                  i: nat, j: nat, k: nat, i': nat, j': nat, k': nat)
    requires ShmEnv(q, dummies, shms, e) && AllMapped(shms) && BuffersDisjoint(shms) &&
             DummyDestinationsDisjoint(q, e, dummies)
    requires Owns(q, e, x, i, j, k) && Owns(q, e, x, i', j', k')
    ensures i == i' && j == j' && k == k'
  {
    var m := DummyByte(q, e, dummies, shms, x, i, j, k);
    var m' := DummyByte(q, e, dummies, shms, x, i', j', k');
    OneBuffer(shms, x, m, m');
    assert OneDummyOwner(q, e, dummies, x - shms[m].buffer + shms[m].dummyBase);
  }

  lemma OneBuffer(shms: seq<MappedShm>, x: int, m: nat, m': nat)
    requires BuffersDisjoint(shms) && m < |shms| && m' < |shms|
    requires shms[m].buffer <= x < shms[m].buffer + shms[m].size &&
             shms[m'].buffer <= x < shms[m'].buffer + shms[m'].size
    ensures m == m'
  {
  }

  /**
   The shared-memory read for a client whose destinations are disjoint: every fragment it is told was
   read holds the store's bytes of the key.
   */
  lemma ShmFragments(q: Request, e: Env, dummies: seq<Word>, shms: seq<MappedShm>, results: seq<seq<seq<Cell>>>,
                     was: seq<Byte>, now: seq<Byte>)
    requires ShmEnv(q, dummies, shms, e) && AllMapped(shms) && BuffersDisjoint(shms) &&
             DummyDestinationsDisjoint(q, e, dummies)
    requires Served(q, e, results, was, now)
    ensures forall i, j, k, x | ReadByte(q, e, results, i, j, k, x) :: HoldsByte(q, e, now, i, j, k, x)
  {
    DummyDisjointMeansDisjoint(q, e, dummies, shms);
    ServedFragments(q, e, results, was, now);
  }
}
