/**
 Ranged reads: a request names, per buffer and per key, fragments of the key's object and places in
 the buffer to put them. The nesting may be ragged; validation decides the shape of the result.
 */
module RangedRead {
  import opened Machine
  import opened Store

  type Cell = Result<Word, ErrorCode>

  datatype Request = Request(keys: seq<seq<string>>, dst: seq<seq<seq<Word>>>, src: seq<seq<seq<Word>>>,
                             sizes: seq<seq<seq<Word>>>)

  // ----- what validation accepts -----

  predicate TopOk(q: Request, buffers: nat) {
    buffers == |q.keys| == |q.dst| == |q.src| == |q.sizes|
  }

  predicate GroupOk(q: Request, i: nat)
    requires i < |q.keys| == |q.dst| == |q.src| == |q.sizes|
  {
    |q.keys[i]| == |q.dst[i]| == |q.src[i]| == |q.sizes[i]|
  }

  predicate FragmentOk(dst: seq<Word>, src: seq<Word>, sizes: seq<Word>, k: nat)
    requires k < |dst|
  {
    |dst| == |src| == |sizes| && dst[k] + sizes[k] < WORD_SPAN
  }

  /** How many cells the row of key j in buffer i has. */
  function RowLength(q: Request, i: nat, j: nat): nat
    requires i < |q.keys| == |q.dst| == |q.src| == |q.sizes| && j < |q.keys[i]|
  {
    if GroupOk(q, i) then |q.dst[i][j]| else 1
  }

  /** Fragment k of key j in buffer i is valid: all nesting agrees around it and its end is an address. */
  predicate Valid(q: Request, i: nat, j: nat, k: nat)
    requires i < |q.keys| == |q.dst| == |q.src| == |q.sizes| && j < |q.keys[i]| && k < RowLength(q, i, j)
  {
    GroupOk(q, i) && FragmentOk(q.dst[i][j], q.src[i][j], q.sizes[i][j], k)
  }

  // ----- prepare_ranged_read_request -----

  datatype Prepared = Prepared(results: seq<seq<seq<Cell>>>, valid: seq<seq<seq<bool>>>, required: seq<Word>,
                               topValid: bool, anyValid: bool)

  const INVALID: Cell := Err(InvalidParams)

  method PrepareRow(dst: seq<Word>, src: seq<Word>, sizes: seq<Word>, largest: Word)
    returns (row: seq<Cell>, flags: seq<bool>, max: Word, any: bool)
    ensures row == seq(|dst|, _ => INVALID)
    ensures |flags| == |dst| && forall k :: 0 <= k < |dst| ==> flags[k] == FragmentOk(dst, src, sizes, k)
    ensures any <==> exists k :: 0 <= k < |dst| && FragmentOk(dst, src, sizes, k)
    ensures max >= largest && forall k :: 0 <= k < |dst| && FragmentOk(dst, src, sizes, k) ==> dst[k] + sizes[k] <= max
    ensures max == largest || exists k :: 0 <= k < |dst| && FragmentOk(dst, src, sizes, k) && dst[k] + sizes[k] == max
  {
    row, flags, max, any := seq(|dst|, _ => INVALID), seq(|dst|, _ => false), largest, false;
    if |dst| != |src| || |dst| != |sizes| {
      return;
    }
    for k := 0 to |dst|
      invariant |flags| == |dst| && forall j :: 0 <= j < |dst| ==> flags[j] == (j < k && FragmentOk(dst, src, sizes, j))
      invariant any <==> exists j :: 0 <= j < k && FragmentOk(dst, src, sizes, j)
      invariant max >= largest && forall j :: 0 <= j < k && FragmentOk(dst, src, sizes, j) ==> dst[j] + sizes[j] <= max
      invariant max == largest || exists j :: 0 <= j < k && FragmentOk(dst, src, sizes, j) && dst[j] + sizes[j] == max
    {
      assert FragmentOk(dst, src, sizes, k) <==> dst[k] + sizes[k] < WORD_SPAN;
      if dst[k] > WORD_SPAN - 1 - sizes[k] {
        continue;
      }
      flags, any := flags[k := true], true;
      if max < dst[k] + sizes[k] {
        max := dst[k] + sizes[k];
      }
    }
  }

  /** The rows of buffer i as validation shapes them, all cells invalid so far. */
  ghost predicate RowsShaped(q: Request, i: nat, rows: seq<seq<Cell>>, flags: seq<seq<bool>>, n: nat)
    requires i < |q.keys| == |q.dst| == |q.src| == |q.sizes| && n <= |q.keys[i]|
  {
    && |rows| == |flags| == n
    && forall j :: 0 <= j < n ==>
         && rows[j] == seq(RowLength(q, i, j), _ => INVALID)
         && |flags[j]| == RowLength(q, i, j)
         && forall k :: 0 <= k < RowLength(q, i, j) ==> flags[j][k] == Valid(q, i, j, k)
  }

  ghost predicate SomeValid(q: Request, i: nat, n: nat)
    requires i < |q.keys| == |q.dst| == |q.src| == |q.sizes| && n <= |q.keys[i]|
  {
    exists j, k :: 0 <= j < n && 0 <= k < RowLength(q, i, j) && Valid(q, i, j, k)
  }

  /** `max` is the largest end of a valid fragment among the first n keys of buffer i, 0 if there is none. */
  ghost predicate LargestEnd(q: Request, i: nat, n: nat, max: Word)
    requires i < |q.keys| == |q.dst| == |q.src| == |q.sizes| && n <= |q.keys[i]|
  {
    && (forall j, k :: 0 <= j < n && 0 <= k < RowLength(q, i, j) && Valid(q, i, j, k) ==>
          q.dst[i][j][k] + q.sizes[i][j][k] <= max)
    && (max == 0 || exists j, k :: 0 <= j < n && 0 <= k < RowLength(q, i, j) && Valid(q, i, j, k) &&
                                   q.dst[i][j][k] + q.sizes[i][j][k] == max)
  }

  method PrepareBuffer(q: Request, i: nat)
    returns (rows: seq<seq<Cell>>, flags: seq<seq<bool>>, required: Word, any: bool)
    requires i < |q.keys| == |q.dst| == |q.src| == |q.sizes|
    ensures RowsShaped(q, i, rows, flags, |q.keys[i]|)
    ensures LargestEnd(q, i, |q.keys[i]|, required)
    ensures any <==> SomeValid(q, i, |q.keys[i]|)
  {
    var n := |q.keys[i]|;
    rows, flags, required, any := [], [], 0, false;
    if n != |q.dst[i]| || n != |q.src[i]| || n != |q.sizes[i]| {
      rows, flags := seq(n, _ => [INVALID]), seq(n, _ => [false]);
      return;
    }
    for j := 0 to n
      invariant RowsShaped(q, i, rows, flags, j) && LargestEnd(q, i, j, required) && (any <==> SomeValid(q, i, j))
    {
      var row, fs, max, some := PrepareRow(q.dst[i][j], q.src[i][j], q.sizes[i][j], required);
      assert forall k :: 0 <= k < RowLength(q, i, j) ==> fs[k] == Valid(q, i, j, k);
      if some {
        var k :| 0 <= k < |q.dst[i][j]| && FragmentOk(q.dst[i][j], q.src[i][j], q.sizes[i][j], k);
        assert Valid(q, i, j, k);
      }
      rows, flags, required, any := rows + [row], flags + [fs], max, any || some;
    }
  }

  /** The shape of an error answer when the top-level sizes disagree. */
  function ErrorRowLength(q: Request, i: nat, j: nat): nat {
    if i < |q.dst| && j < |q.dst[i]| && |q.dst[i][j]| > 0 then |q.dst[i][j]| else 1
  }

  function ErrorResults(q: Request, buffers: nat, e: ErrorCode): seq<seq<seq<Cell>>> {
    seq(buffers, i requires 0 <= i < buffers =>
      seq(if i < |q.keys| then |q.keys[i]| else 1, j requires 0 <= j =>
        seq(ErrorRowLength(q, i, j), _ => Err(e))))
  }

  method Prepare(q: Request, buffers: nat) returns (p: Prepared)
    ensures p.topValid == TopOk(q, buffers)
    ensures !p.topValid ==> p.results == ErrorResults(q, buffers, InvalidParams)
    ensures p.topValid ==>
              && |p.results| == |p.valid| == |p.required| == buffers
              && (forall i :: 0 <= i < buffers ==>
                    RowsShaped(q, i, p.results[i], p.valid[i], |q.keys[i]|) &&
                    LargestEnd(q, i, |q.keys[i]|, p.required[i]))
              && (p.anyValid <==> exists i :: 0 <= i < buffers && SomeValid(q, i, |q.keys[i]|))
  {
    if buffers != |q.keys| || buffers != |q.dst| || buffers != |q.src| || buffers != |q.sizes| {
      return Prepared(ErrorResults(q, buffers, InvalidParams), [], [], false, false);
    }
    var results, valid, required, any := [], [], [], false;
    for i := 0 to buffers
      invariant |results| == |valid| == |required| == i
      invariant forall h :: 0 <= h < i ==>
                  RowsShaped(q, h, results[h], valid[h], |q.keys[h]|) && LargestEnd(q, h, |q.keys[h]|, required[h])
      invariant any <==> exists h :: 0 <= h < i && SomeValid(q, h, |q.keys[h]|)
    {
      var rows, flags, max, some := PrepareBuffer(q, i);
      results, valid, required, any := results + [rows], valid + [flags], required + [max], any || some;
    }
    return Prepared(results, valid, required, true, any);
  }

  // ----- execute_ranged_read -----

  datatype Meta = Meta(kind: Kind, total: Word)

  /** What foreign code answers during one read; `garbage` is what a failed transfer may leave behind. */
  datatype ReadReply = ReadReply(alloc: bool, get: Option<ErrorCode>, scatter: Option<ErrorCode>, garbage: nat -> Byte)

  predicate InObject(m: Meta, src: Word, size: Word) {
    src + size <= m.total
  }

  predicate Whole(m: Meta, src: Word, size: Word) {
    src == 0 && size == m.total
  }

  /** The read goes through a temporary host buffer. */
  predicate Staged(m: Meta, src: Word, size: Word) {
    m.kind == Disk || (m.kind == LocalDisk && !Whole(m, src, size))
  }

  function ReadCell(m: Meta, src: Word, size: Word, r: ReadReply): Cell {
    if !InObject(m, src, size) then INVALID
    else if m.kind == NofSsd && !Whole(m, src, size) then Err(InvalidReplica)
    else if Staged(m, src, size) && !r.alloc then Err(NoAvailableHandle)
    else if r.get.Some? then Err(r.get.value)
    else if Staged(m, src, size) && r.scatter.Some? then Err(r.scatter.value)
    else Ok(size)
  }

  /** The destination may have been written to. */
  predicate Touched(m: Meta, src: Word, size: Word, r: ReadReply) {
    && InObject(m, src, size)
    && !(m.kind == NofSsd && !Whole(m, src, size))
    && (Staged(m, src, size) ==> r.alloc && r.get.None?)
  }

  function Landed(m: Meta, obj: seq<Byte>, src: Word, size: Word, r: ReadReply): seq<Byte>
    requires |obj| == m.total && InObject(m, src, size)
  {
    if ReadCell(m, src, size, r).Ok? then obj[src..src + size] else seq(size, k requires 0 <= k => r.garbage(k))
  }

  method StoreBytes(mem: array<Byte>, addr: nat, bytes: seq<Byte>)
    requires addr + |bytes| <= mem.Length
    modifies mem
    ensures mem[..] == Patch(old(mem[..]), addr, bytes)
  {
    for k := 0 to |bytes|
      invariant forall x :: 0 <= x < mem.Length ==>
                  mem[x] == if addr <= x < addr + k then bytes[x - addr] else old(mem[x])
    {
      mem[addr + k] := bytes[k];
    }
  }

  method ExecuteRead(mem: array<Byte>, addr: nat, src: Word, size: Word, m: Meta, obj: seq<Byte>, r: ReadReply)
    returns (cell: Cell)
    requires |obj| == m.total
    requires size > 0 ==> addr + size <= mem.Length
    modifies mem
    ensures cell == ReadCell(m, src, size, r)
    ensures size > 0 && Touched(m, src, size, r) ==> mem[..] == Patch(old(mem[..]), addr, Landed(m, obj, src, size, r))
    ensures !(size > 0 && Touched(m, src, size, r)) ==> mem[..] == old(mem[..])
  {
    if size > m.total || src > m.total - size {
      return INVALID;
    }
    if src == 0 && size == m.total && m.kind != Disk {
      // straight into the destination
      cell := if r.get.Some? then Err(r.get.value) else Ok(m.total);
      Transfer(mem, addr, size, Landed(m, obj, src, size, r));
      return;
    }
    if m.kind == LocalDisk || m.kind == Disk {
      if !r.alloc {
        return Err(NoAvailableHandle);
      }
      if r.get.Some? {
        return Err(r.get.value);
      }
      cell := if r.scatter.Some? then Err(r.scatter.value) else Ok(size);
      Transfer(mem, addr, size, Landed(m, obj, src, size, r));
      return;
    }
    if m.kind != Memory {
      return Err(InvalidReplica);
    }
    cell := if r.get.Some? then Err(r.get.value) else Ok(size);
    Transfer(mem, addr, size, Landed(m, obj, src, size, r));
  }

  method Transfer(mem: array<Byte>, addr: nat, size: Word, bytes: seq<Byte>)
    requires |bytes| == size && (size > 0 ==> addr + size <= mem.Length)
    modifies mem
    ensures size > 0 ==> mem[..] == Patch(old(mem[..]), addr, bytes)
    ensures size == 0 ==> mem[..] == old(mem[..])
  {
    if size > 0 {
      StoreBytes(mem, addr, bytes);
    }
  }

  // ----- get_into_ranges: what each fragment gives -----

  /** Buffers, capacities, and everything the store answers. */
  datatype Env = Env(bases: seq<Word>, caps: seq<Word>, capsGiven: bool, meta: string -> Result<Meta, ErrorCode>,
                     objects: string -> seq<Byte>, replies: (nat, nat, nat) -> ReadReply)

  /** All complete replicas of a key hold the key's object. */
  ghost predicate Consistent(e: Env) {
    forall key :: e.meta(key).Ok? ==> |e.objects(key)| == e.meta(key).value.total
  }

  ghost predicate Fitting(q: Request, e: Env, memory: nat) {
    && TopOk(q, |e.bases|) && |e.caps| == |e.bases|
    && forall i :: 0 <= i < |e.bases| && e.caps[i] > 0 ==> e.bases[i] + e.caps[i] <= memory
  }

  predicate InShape(q: Request, e: Env, i: nat, j: nat, k: nat) {
    TopOk(q, |e.bases|) && |e.caps| == |e.bases| && i < |e.bases| && j < |q.keys[i]| && k < RowLength(q, i, j)
  }

  /** The buffer is large enough; the code does not ask this of an empty fragment. */
  predicate FitsBuffer(cap: Word, dst: Word, size: Word) {
    size == 0 || (dst <= cap && size <= cap - dst)
  }

  /** The fragment reaches the store. */
  predicate Attempted(q: Request, e: Env, i: nat, j: nat, k: nat)
    requires InShape(q, e, i, j, k)
  {
    && (e.caps[i] > 0 || e.capsGiven)
    && Valid(q, i, j, k)
    && FitsBuffer(e.caps[i], q.dst[i][j][k], q.sizes[i][j][k])
  }

  function CellAt(q: Request, e: Env, i: nat, j: nat, k: nat): Cell
    requires InShape(q, e, i, j, k)
  {
    if !Attempted(q, e, i, j, k) then INVALID
    else match e.meta(q.keys[i][j])
      case Err(error) => Err(error)
      case Ok(m) => ReadCell(m, q.src[i][j][k], q.sizes[i][j][k], e.replies(i, j, k))
  }

  datatype Write = Write(i: nat, j: nat, k: nat, addr: nat, bytes: seq<Byte>)

  /** The write fragment (i, j, k) causes, if any. */
  function WriteAt(q: Request, e: Env, i: nat, j: nat, k: nat): seq<Write>
    requires InShape(q, e, i, j, k) && Consistent(e)
  {
    if !Attempted(q, e, i, j, k) || q.sizes[i][j][k] == 0 || e.meta(q.keys[i][j]).Err? then []
    else
      var m, src, size, r := e.meta(q.keys[i][j]).value, q.src[i][j][k], q.sizes[i][j][k], e.replies(i, j, k);
      if !Touched(m, src, size, r) then []
      else [Write(i, j, k, e.bases[i] as int + q.dst[i][j][k], Landed(m, e.objects(q.keys[i][j]), src, size, r))]
  }

  function RowWrites(q: Request, e: Env, i: nat, j: nat, n: nat): seq<Write>
    requires Consistent(e) && (n > 0 ==> InShape(q, e, i, j, n - 1))
  {
    if n == 0 then [] else RowWrites(q, e, i, j, n - 1) + WriteAt(q, e, i, j, n - 1)
  }

  predicate KeyInShape(q: Request, e: Env, i: nat, n: nat) {
    TopOk(q, |e.bases|) && |e.caps| == |e.bases| && i < |e.bases| && n <= |q.keys[i]|
  }

  function BufferWrites(q: Request, e: Env, i: nat, n: nat): seq<Write>
    requires Consistent(e) && KeyInShape(q, e, i, n)
  {
    if n == 0 then [] else BufferWrites(q, e, i, n - 1) + RowWrites(q, e, i, n - 1, RowLength(q, i, n - 1))
  }

  /** All writes of the first n buffers, in the order the code makes them. */
  function AllWrites(q: Request, e: Env, n: nat): seq<Write>
    requires Consistent(e) && TopOk(q, |e.bases|) && |e.caps| == |e.bases| && n <= |e.bases|
  {
    if n == 0 then [] else AllWrites(q, e, n - 1) + BufferWrites(q, e, n - 1, |q.keys[n - 1]|)
  }

  ghost predicate InMemory(ws: seq<Write>, size: nat) {
    forall n :: 0 <= n < |ws| ==> ws[n].addr + |ws[n].bytes| <= size
  }

  function Apply(mem: seq<Byte>, ws: seq<Write>): (out: seq<Byte>)
    requires InMemory(ws, |mem|)
    ensures |out| == |mem|
  {
    if ws == [] then mem
    else
      var w := ws[|ws| - 1];
      Patch(Apply(mem, ws[..|ws| - 1]), w.addr, w.bytes)
  }

  function Patched(mem: seq<Byte>, w: seq<Write>): seq<Byte>
    requires InMemory(w, |mem|) && |w| <= 1
  {
    if w == [] then mem else Patch(mem, w[0].addr, w[0].bytes)
  }

  lemma ApplyOne(mem: seq<Byte>, ws: seq<Write>, w: seq<Write>)
    requires InMemory(ws, |mem|) && InMemory(w, |mem|) && |w| <= 1
    ensures InMemory(ws + w, |mem|)
    ensures Apply(mem, ws + w) == Patched(Apply(mem, ws), w)
  {
    if w == [] {
      assert ws + w == ws;
    } else {
      assert (ws + w)[..|ws + w| - 1] == ws;
    }
  }

  lemma {:induction false} ApplyConcat(mem: seq<Byte>, a: seq<Write>, b: seq<Write>)
    requires InMemory(a, |mem|) && InMemory(b, |mem|)
    ensures InMemory(a + b, |mem|) && Apply(mem, a + b) == Apply(Apply(mem, a), b)
  {
    if b == [] {
      assert a + b == a;
    } else {
      var n := |b| - 1;
      var front, last := b[..n], [b[n]];
      assert b == front + last && a + b == (a + front) + last;
      ApplyConcat(mem, a, front);
      ApplyOne(mem, a + front, last);
      ApplyOne(Apply(mem, a), front, last);
    }
  }

  // ----- get_into_ranges: the code -----

  /** One pass of the innermost loop. */
  method ReadFragment(mem: array<Byte>, q: Request, e: Env, i: nat, j: nat, k: nat, flag: bool,
                      found: Result<Meta, ErrorCode>)
    returns (cell: Cell)
    requires Consistent(e) && Fitting(q, e, mem.Length) && InShape(q, e, i, j, k) && (e.caps[i] > 0 || e.capsGiven)
    requires found == e.meta(q.keys[i][j]) && flag == Valid(q, i, j, k)
    modifies mem
    ensures cell == CellAt(q, e, i, j, k) && InMemory(WriteAt(q, e, i, j, k), mem.Length)
    ensures mem[..] == Patched(old(mem[..]), WriteAt(q, e, i, j, k))
  {
    if !flag {
      return INVALID;
    }
    var dst, src, size, cap := q.dst[i][j][k], q.src[i][j][k], q.sizes[i][j][k], e.caps[i];
    if size > 0 && (dst > cap || size > cap - dst) {
      return INVALID;
    }
    if found.Err? {
      return Err(found.error);
    }
    cell := ExecuteRead(mem, e.bases[i] as int + dst, src, size, found.value, e.objects(q.keys[i][j]),
                        e.replies(i, j, k));
  }

  method ReadRow(mem: array<Byte>, q: Request, e: Env, i: nat, j: nat, flags: seq<bool>, cells: seq<Cell>,
                 found: Result<Meta, ErrorCode>)
    returns (row: seq<Cell>)
    requires Consistent(e) && Fitting(q, e, mem.Length) && KeyInShape(q, e, i, j + 1) && (e.caps[i] > 0 || e.capsGiven)
    requires found == e.meta(q.keys[i][j]) && |cells| == |flags| == RowLength(q, i, j)
    requires forall k :: 0 <= k < |flags| ==> flags[k] == Valid(q, i, j, k)
    modifies mem
    ensures RowDone(q, e, i, j, row)
    ensures InMemory(RowWrites(q, e, i, j, |row|), mem.Length)
    ensures mem[..] == Apply(old(mem[..]), RowWrites(q, e, i, j, |row|))
  {
    row := cells;
    ghost var start := mem[..];
    for k := 0 to |row|
      invariant |row| == RowLength(q, i, j) && RowProgress(q, e, i, j, k, row, start, mem[..])
    {
      ghost var before := mem[..];
      var cell := ReadFragment(mem, q, e, i, j, k, flags[k], found);
      RowStep(q, e, i, j, k, row, cell, start, before, mem[..]);
      row := row[k := cell];
    }
  }

  /** The first k fragments of a row are served. */
  ghost predicate RowProgress(q: Request, e: Env, i: nat, j: nat, k: nat, row: seq<Cell>, start: seq<Byte>,
                              now: seq<Byte>)
    requires Consistent(e) && KeyInShape(q, e, i, j + 1) && k <= RowLength(q, i, j) == |row|
  {
    && (forall h :: 0 <= h < k ==> row[h] == CellAt(q, e, i, j, h))
    && InMemory(RowWrites(q, e, i, j, k), |start|) && now == Apply(start, RowWrites(q, e, i, j, k))
  }

  lemma RowStep(q: Request, e: Env, i: nat, j: nat, k: nat, row: seq<Cell>, cell: Cell,
                start: seq<Byte>, before: seq<Byte>, after: seq<Byte>)
    requires Consistent(e) && KeyInShape(q, e, i, j + 1) && k < RowLength(q, i, j) == |row|
    requires RowProgress(q, e, i, j, k, row, start, before)
    requires cell == CellAt(q, e, i, j, k) && InMemory(WriteAt(q, e, i, j, k), |start|)
    requires after == Patched(before, WriteAt(q, e, i, j, k))
    ensures RowProgress(q, e, i, j, k + 1, row[k := cell], start, after)
  {
    ApplyOne(start, RowWrites(q, e, i, j, k), WriteAt(q, e, i, j, k));
  }

  /** The metadata cache of one call: it only ever holds what the store would answer. */
  ghost predicate CacheSound(cache: map<string, Result<Meta, ErrorCode>>, e: Env) {
    forall key <- cache :: cache[key] == e.meta(key)
  }

  ghost predicate Distinct(asked: seq<string>) {
    forall a, b :: 0 <= a < b < |asked| ==> asked[a] != asked[b]
  }

  ghost predicate AskedCached(asked: seq<string>, cache: map<string, Result<Meta, ErrorCode>>) {
    forall a :: 0 <= a < |asked| ==> asked[a] in cache
  }

  /** The cache and the keys asked for so far: each was asked once and is in the cache since. */
  ghost predicate Asking(cache: map<string, Result<Meta, ErrorCode>>, asked: seq<string>, e: Env) {
    CacheSound(cache, e) && Distinct(asked) && AskedCached(asked, cache)
  }

  /** The metadata of a key, from the cache or by one query. */
  method Resolve(key: string, cache: map<string, Result<Meta, ErrorCode>>, asked: seq<string>, e: Env)
    returns (found: Result<Meta, ErrorCode>, cache': map<string, Result<Meta, ErrorCode>>, asked': seq<string>)
    requires Asking(cache, asked, e)
    ensures found == e.meta(key)
    ensures Asking(cache', asked', e)
    ensures cache'.Keys == cache.Keys + {key}
    ensures asked' == if key in cache then asked else asked + [key]
  {
    if key in cache {
      return cache[key], cache, asked;
    }
    found := e.meta(key);
    return found, cache[key := found], asked + [key];
  }

  method ReadBuffer(mem: array<Byte>, q: Request, e: Env, i: nat, flags: seq<seq<bool>>, cells: seq<seq<Cell>>,
                    cache: map<string, Result<Meta, ErrorCode>>, asked: seq<string>)
    returns (rows: seq<seq<Cell>>, cache': map<string, Result<Meta, ErrorCode>>, asked': seq<string>)
    requires Consistent(e) && Fitting(q, e, mem.Length) && i < |e.bases|
    requires RowsShaped(q, i, cells, flags, |q.keys[i]|)
    requires Asking(cache, asked, e)
    modifies mem
    ensures BufferDone(q, e, i, rows)
    ensures InMemory(BufferWrites(q, e, i, |q.keys[i]|), mem.Length)
    ensures mem[..] == Apply(old(mem[..]), BufferWrites(q, e, i, |q.keys[i]|))
    ensures Asking(cache', asked', e)
  {
    if e.caps[i] == 0 && |q.keys[i]| > 0 && !e.capsGiven {
      SkippedWritesNothing(q, e, i, |q.keys[i]|);
      return cells, cache, asked;
    }
    rows, cache', asked' := ReadKeys(mem, q, e, i, flags, cells, cache, asked);
  }

  method ReadKeys(mem: array<Byte>, q: Request, e: Env, i: nat, flags: seq<seq<bool>>, cells: seq<seq<Cell>>,
                  cache: map<string, Result<Meta, ErrorCode>>, asked: seq<string>)
    returns (rows: seq<seq<Cell>>, cache': map<string, Result<Meta, ErrorCode>>, asked': seq<string>)
    requires Consistent(e) && Fitting(q, e, mem.Length) && i < |e.bases|
    requires e.caps[i] > 0 || e.capsGiven || q.keys[i] == []
    requires RowsShaped(q, i, cells, flags, |q.keys[i]|)
    requires Asking(cache, asked, e)
    modifies mem
    ensures BufferDone(q, e, i, rows)
    ensures InMemory(BufferWrites(q, e, i, |q.keys[i]|), mem.Length)
    ensures mem[..] == Apply(old(mem[..]), BufferWrites(q, e, i, |q.keys[i]|))
    ensures Asking(cache', asked', e)
  {
    rows, cache', asked' := cells, cache, asked;
    ghost var start := mem[..];
    for j := 0 to |q.keys[i]|
      invariant KeysProgress(q, e, i, j, rows, start, mem[..]) && Asking(cache', asked', e)
    {
      ghost var before := mem[..];
      var row;
      row, cache', asked' := ReadKey(mem, q, e, i, j, flags, cells, cache', asked');
      KeysStep(q, e, i, j, rows, row, start, before, mem[..]);
      rows := rows[j := row];
    }
  }

  /** The first n keys of buffer i are served. */
  ghost predicate KeysProgress(q: Request, e: Env, i: nat, n: nat, rows: seq<seq<Cell>>, start: seq<Byte>,
                               now: seq<Byte>) {
    && Consistent(e) && KeyInShape(q, e, i, n) && |rows| == |q.keys[i]|
    && (forall h :: 0 <= h < n ==> RowDone(q, e, i, h, rows[h]))
    && InMemory(BufferWrites(q, e, i, n), |start|) && now == Apply(start, BufferWrites(q, e, i, n))
  }

  lemma KeysStep(q: Request, e: Env, i: nat, j: nat, rows: seq<seq<Cell>>, row: seq<Cell>,
                 start: seq<Byte>, before: seq<Byte>, after: seq<Byte>)
    requires KeysProgress(q, e, i, j, rows, start, before) && j < |q.keys[i]|
    requires RowServed(q, e, i, j, row, before, after)
    ensures KeysProgress(q, e, i, j + 1, rows[j := row], start, after)
  {
    ApplyConcat(start, BufferWrites(q, e, i, j), RowWrites(q, e, i, j, RowLength(q, i, j)));
  }

  method ReadKey(mem: array<Byte>, q: Request, e: Env, i: nat, j: nat, flags: seq<seq<bool>>, cells: seq<seq<Cell>>,
                 cache: map<string, Result<Meta, ErrorCode>>, asked: seq<string>)
    returns (row: seq<Cell>, cache': map<string, Result<Meta, ErrorCode>>, asked': seq<string>)
    requires Consistent(e) && Fitting(q, e, mem.Length) && KeyInShape(q, e, i, j + 1) && (e.caps[i] > 0 || e.capsGiven)
    requires RowsShaped(q, i, cells, flags, |q.keys[i]|) && Asking(cache, asked, e)
    modifies mem
    ensures RowServed(q, e, i, j, row, old(mem[..]), mem[..]) && Asking(cache', asked', e)
  {
    var key := q.keys[i][j];
    var found;
    found, cache', asked' := Resolve(key, cache, asked, e);
    row := ReadRow(mem, q, e, i, j, flags[j], cells[j], found);
  }

  /** Key j of buffer i is served between two states of the memory. */
  ghost predicate RowServed(q: Request, e: Env, i: nat, j: nat, row: seq<Cell>, before: seq<Byte>, after: seq<Byte>)
    requires Consistent(e) && KeyInShape(q, e, i, j + 1)
  {
    var ws := RowWrites(q, e, i, j, RowLength(q, i, j));
    RowDone(q, e, i, j, row) && InMemory(ws, |before|) && after == Apply(before, ws)
  }

  ghost predicate RowDone(q: Request, e: Env, i: nat, j: nat, row: seq<Cell>)
    requires KeyInShape(q, e, i, j + 1)
  {
    |row| == RowLength(q, i, j) && forall k :: 0 <= k < |row| ==> row[k] == CellAt(q, e, i, j, k)
  }

  ghost predicate BufferDone(q: Request, e: Env, i: nat, rows: seq<seq<Cell>>)
    requires KeyInShape(q, e, i, 0)
  {
    |rows| == |q.keys[i]| && forall j :: 0 <= j < |rows| ==> RowDone(q, e, i, j, rows[j])
  }

  lemma {:induction false} SkippedRowWritesNothing(q: Request, e: Env, i: nat, j: nat, n: nat)
    requires Consistent(e) && KeyInShape(q, e, i, j + 1) && n <= RowLength(q, i, j) && e.caps[i] == 0 && !e.capsGiven
    ensures RowWrites(q, e, i, j, n) == []
  {
    if n > 0 { SkippedRowWritesNothing(q, e, i, j, n - 1); }
  }

  lemma {:induction false} SkippedWritesNothing(q: Request, e: Env, i: nat, n: nat)
    requires Consistent(e) && KeyInShape(q, e, i, n) && e.caps[i] == 0 && !e.capsGiven
    ensures BufferWrites(q, e, i, n) == []
  {
    if n > 0 {
      SkippedWritesNothing(q, e, i, n - 1);
      SkippedRowWritesNothing(q, e, i, n - 1, RowLength(q, i, n - 1));
    }
  }

  /**
   Serves a prepared request. The result has the validated shape, the memory is the old one with
   the fragments' writes applied in order, and no key is asked for twice.
   */
  method ServeRanges(mem: array<Byte>, q: Request, e: Env, p: Prepared, known: map<string, Result<Meta, ErrorCode>>)
    returns (results: seq<seq<seq<Cell>>>, asked: seq<string>)
    requires Consistent(e) && Fitting(q, e, mem.Length) && CacheSound(known, e)
    requires |p.results| == |p.valid| == |e.bases|
    requires forall i :: 0 <= i < |e.bases| ==> RowsShaped(q, i, p.results[i], p.valid[i], |q.keys[i]|)
    modifies mem
    ensures |results| == |e.bases| && forall i :: 0 <= i < |results| ==> BufferDone(q, e, i, results[i])
    ensures InMemory(AllWrites(q, e, |e.bases|), mem.Length)
    ensures mem[..] == Apply(old(mem[..]), AllWrites(q, e, |e.bases|))
    ensures Distinct(asked)
  {
    results, asked := p.results, [];
    var cache := known;
    ghost var start := mem[..];
    for i := 0 to |e.bases|
      invariant Progress(q, e, i, results, start, mem[..]) && Asking(cache, asked, e)
    {
      results, cache, asked := ServeBuffer(mem, q, e, i, p.valid[i], p.results[i], results, cache, asked, start);
    }
  }

  /** Buffer i of a prepared request. */
  method ServeBuffer(mem: array<Byte>, q: Request, e: Env, i: nat, flags: seq<seq<bool>>, cells: seq<seq<Cell>>,
                     results: seq<seq<seq<Cell>>>, cache: map<string, Result<Meta, ErrorCode>>, asked: seq<string>,
                     ghost start: seq<Byte>)
    returns (results': seq<seq<seq<Cell>>>, cache': map<string, Result<Meta, ErrorCode>>, asked': seq<string>)
    requires Fitting(q, e, mem.Length) && i < |e.bases| && RowsShaped(q, i, cells, flags, |q.keys[i]|)
    requires Progress(q, e, i, results, start, mem[..]) && Asking(cache, asked, e)
    modifies mem
    ensures Progress(q, e, i + 1, results', start, mem[..]) && Asking(cache', asked', e)
  {
    var rows;
    rows, cache', asked' := ReadBuffer(mem, q, e, i, flags, cells, cache, asked);
    results' := results[i := rows];
    ProgressStep(q, e, i, results, rows, start, old(mem[..]), mem[..]);
  }

  /** The first n buffers are served. */
  ghost predicate Progress(q: Request, e: Env, n: nat, results: seq<seq<seq<Cell>>>, start: seq<Byte>, now: seq<Byte>) {
    && Consistent(e) && TopOk(q, |e.bases|) && |e.caps| == |e.bases| == |results| && n <= |results|
    && (forall h :: 0 <= h < n ==> BufferDone(q, e, h, results[h]))
    && InMemory(AllWrites(q, e, n), |start|) && now == Apply(start, AllWrites(q, e, n))
  }

  lemma ProgressStep(q: Request, e: Env, i: nat, results: seq<seq<seq<Cell>>>, rows: seq<seq<Cell>>,
                     start: seq<Byte>, before: seq<Byte>, after: seq<Byte>)
    requires i < |e.bases| && Progress(q, e, i, results, start, before) && BufferDone(q, e, i, rows)
    requires InMemory(BufferWrites(q, e, i, |q.keys[i]|), |start|)
    requires after == Apply(before, BufferWrites(q, e, i, |q.keys[i]|))
    ensures Progress(q, e, i + 1, results[i := rows], start, after)
  {
    ApplyConcat(start, AllWrites(q, e, i), BufferWrites(q, e, i, |q.keys[i]|));
  }

  /** A registered piece of writable memory. */
  datatype Area = Area(base: Word, size: Word)

  predicate Contains(a: Area, target: Word) {
    a.base <= target && target - a.base < a.size
  }

  /** The area that decides about an address: the first registered one that holds it, else the local one. */
  function AreaOf(target: Word, registered: seq<Area>, local: Option<Area>): (a: Option<Area>)
    ensures a.Some? ==> (a.value in registered || local == a) && Contains(a.value, target)
    ensures a.None? ==> forall b <- registered :: !Contains(b, target)
    ensures a.None? ==> (local.Some? ==> !Contains(local.value, target))
  {
    if registered == [] then if local.Some? && Contains(local.value, target) then local else None
    else if Contains(registered[0], target) then Some(registered[0])
    else AreaOf(target, registered[1..], local)
  }

  /** The room from an address to the end of its area; none if no area holds it. */
  function Room(target: Word, registered: seq<Area>, local: Option<Area>): Word {
    var a := AreaOf(target, registered, local);
    if a.None? then 0 else a.value.size - (target - a.value.base)
  }

  method Capacity(target: Word, registered: seq<Area>, local: Option<Area>) returns (cap: Word)
    ensures cap == Room(target, registered, local)
  {
    assert registered[0..] == registered;
    for n := 0 to |registered|
      invariant AreaOf(target, registered, local) == AreaOf(target, registered[n..], local)
    {
      var a := registered[n];
      assert registered[n..][0] == a && registered[n..][1..] == registered[n + 1..];
      if target >= a.base {
        var offset := target - a.base;
        if offset < a.size {
          return a.size - offset;
        }
      }
    }
    if local.Some? && target >= local.value.base && target - local.value.base < local.value.size {
      return local.value.size - (target - local.value.base);
    }
    return 0;
  }

  /** Every capacity is the room the areas give its buffer. */
  ghost predicate Roomy(buffers: seq<Word>, registered: seq<Area>, local: Option<Area>, caps: seq<Word>) {
    |caps| == |buffers| && forall i :: 0 <= i < |caps| ==> caps[i] == Room(buffers[i], registered, local)
  }

  method Capacities(buffers: seq<Word>, registered: seq<Area>, local: Option<Area>) returns (caps: seq<Word>)
    ensures Roomy(buffers, registered, local, caps)
  {
    caps := [];
    for i := 0 to |buffers|
      invariant |caps| == i && forall h :: 0 <= h < i ==> caps[h] == Room(buffers[h], registered, local)
    {
      var cap := Capacity(buffers[i], registered, local);
      caps := caps + [cap];
    }
  }

  /** The request was served in this environment: every cell is decided and memory holds just the writes it asks for. */
  ghost predicate Served(q: Request, e: Env, results: seq<seq<seq<Cell>>>, was: seq<Byte>, now: seq<Byte>) {
    && Consistent(e) && Fitting(q, e, |was|)
    && |results| == |e.bases| && (forall i :: 0 <= i < |results| ==> BufferDone(q, e, i, results[i]))
    && InMemory(AllWrites(q, e, |e.bases|), |was|) && now == Apply(was, AllWrites(q, e, |e.bases|))
  }

  /**
   get_into_ranges: validation, capacities from the registered areas, then the reads; a request
   whose top-level sizes disagree reads nothing.
   */
  method GetIntoRanges(mem: array<Byte>, q: Request, buffers: seq<Word>, registered: seq<Area>, local: Option<Area>,
                       meta: string -> Result<Meta, ErrorCode>, objects: string -> seq<Byte>,
                       replies: (nat, nat, nat) -> ReadReply, known: map<string, Result<Meta, ErrorCode>>)
    returns (results: seq<seq<seq<Cell>>>, ghost e: Env)
    requires forall key :: meta(key).Ok? ==> |objects(key)| == meta(key).value.total
    requires forall key <- known :: known[key] == meta(key)
    requires forall a :: a in registered || local == Some(a) ==> a.base + a.size <= mem.Length
    modifies mem
    ensures !TopOk(q, |buffers|) ==> results == ErrorResults(q, |buffers|, InvalidParams) && mem[..] == old(mem[..])
    ensures TopOk(q, |buffers|) ==>
              && e == Env(buffers, e.caps, false, meta, objects, replies) && Roomy(buffers, registered, local, e.caps)
              && Served(q, e, results, old(mem[..]), mem[..])
  {
    var p := Prepare(q, |buffers|);
    e := Env(buffers, [], false, meta, objects, replies);
    if !p.topValid {
      return p.results, e;
    }
    var caps := Capacities(buffers, registered, local);
    var env := Env(buffers, caps, false, meta, objects, replies);
    e := env;
    var asked;
    results, asked := ServeRanges(mem, q, env, p, known);
  }
}
