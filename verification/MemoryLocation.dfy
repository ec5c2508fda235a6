/**
 Where memory lives: the scan that turns one NUMA status per page into runs of bytes with one
 location name each.
 */
module MemoryLocation {
  import opened Machine

  const PAGE := 4096
  const WILDCARD := "*"

  datatype Entry = Entry(start: Word, len: Word, location: string)

  function Digit(d: nat): char
    requires d < 10
  {
    ('0' as int + d) as char
  }

  function Digits(n: nat): string {
    if n < 10 then [Digit(n)] else Digits(n / 10) + [Digit(n % 10)]
  }

  /** std::to_string. */
  function Decimal(x: int): string {
    if x < 0 then "-" + Digits(-x) else Digits(x)
  }

  predicate IsDigit(c: char) {
    '0' <= c <= '9'
  }

  function Number(s: string): nat
    requires forall k :: 0 <= k < |s| ==> IsDigit(s[k])
  {
    if s == "" then 0 else
      assert IsDigit(s[|s| - 1]);
      10 * Number(s[..|s| - 1]) + (s[|s| - 1] as int - '0' as int)
  }

  lemma {:induction false} DigitsRead(n: nat)
    ensures Digits(n) != "" && forall k :: 0 <= k < |Digits(n)| ==> IsDigit(Digits(n)[k])
    ensures Number(Digits(n)) == n
  {
    if n >= 10 {
      DigitsRead(n / 10);
      NumberGrows(Digits(n / 10), n % 10);
    }
  }

  lemma NumberGrows(s: string, d: nat)
    requires d < 10 && forall k :: 0 <= k < |s| ==> IsDigit(s[k])
    ensures forall k :: 0 <= k < |s + [Digit(d)]| ==> IsDigit((s + [Digit(d)])[k])
    ensures Number(s + [Digit(d)]) == 10 * Number(s) + d
  {
    assert (s + [Digit(d)])[..|s|] == s;
  }

  function CpuNodeName(node: int): string {
    if node >= 0 then "cpu:" + Decimal(node) else WILDCARD
  }

  /** The text is "cpu:" and the node in decimal digits, or "*" for a page without a node. */
  ghost predicate NamesNode(location: string, node: int) {
    if node < 0 then location == "*"
    else |location| > 4 && location[..4] == "cpu:" && (forall k :: 4 <= k < |location| ==> IsDigit(location[k])) &&
         Number(location[4..]) == node
  }

  lemma NameMeans(node: int)
    ensures NamesNode(CpuNodeName(node), node)
  {
    if node >= 0 {
      DigitsRead(node);
      assert CpuNodeName(node)[4..] == Digits(node);
    }
  }

  /** Names tell nodes apart: two are equal exactly if the nodes are, or neither page has a node. */
  lemma SameNameIff(m: int, n: int)
    ensures CpuNodeName(m) == CpuNodeName(n) <==> m == n || (m < 0 && n < 0)
    ensures CpuNodeName(n) == "*" <==> n < 0
  {
    NameMeans(m);
    NameMeans(n);
  }

  function AlignPage(a: Word): Word {
    a - a % PAGE
  }

  /** Pages that hold a byte of the range, or the first only; the sum is the machine's. */
  function PageCount(start: Word, len: Word, onlyFirst: bool): nat {
    if onlyFirst then 1 else AddW(AddW(start - AlignPage(start), len), PAGE - 1) / PAGE
  }

  /** No page is counted for an empty range that starts a page, nor for one from the first page into the last. */
  lemma NoPagesIff(start: Word, len: Word)
    requires start + len <= WORD_SPAN
    ensures PageCount(start, len, false) == 0 <==>
            (len == 0 && start % PAGE == 0) || (start < PAGE && start + len > WORD_SPAN - PAGE)
    ensures PageCount(start, len, false) > 0 ==>
              PageCount(start, len, false) == (start - AlignPage(start) + len + PAGE - 1) / PAGE
  {
  }

  /** An empty range at the start of a page, and one from the first page into the last. */
  lemma NoPagesExample()
    ensures PageCount(0x1000, 0, false) == 0 && PageCount(0, WORD_SPAN - 1, false) == 0
  {
    NoPagesIff(0x1000, 0);
    NoPagesIff(0, WORD_SPAN - 1);
  }

  /** The page of the range, counted from the page of `start`, that holds the byte at `a`. */
  ghost function PageOf(start: Word, a: int): int {
    (a - AlignPage(start)) / PAGE
  }

  /** First byte of the range on page p. */
  function PageStart(start: Word, p: nat): int {
    if p == 0 then start else AlignPage(start) + p * PAGE
  }

  ghost predicate Adjacent(entries: seq<Entry>, i: nat)
    requires i + 1 < |entries|
  {
    entries[i].start + entries[i].len == entries[i + 1].start
  }

  /** The entries lie end to end from `start` to `end`. */
  ghost predicate Tile(entries: seq<Entry>, start: Word, end: int) {
    && entries != [] && entries[0].start == start
    && (forall i :: 0 <= i < |entries| - 1 ==> Adjacent(entries, i))
    && entries[|entries| - 1].start + entries[|entries| - 1].len == end
  }

  /** Every byte is labelled with the node of its own page. */
  ghost predicate Labelled(entries: seq<Entry>, start: Word, status: seq<int>) {
    forall k, a :: 0 <= k < |entries| && entries[k].start <= a < entries[k].start + entries[k].len ==>
      0 <= PageOf(start, a) < |status| && entries[k].location == CpuNodeName(status[PageOf(start, a)])
  }

  /** The page has another status than the page before it. */
  ghost predicate Turns(status: seq<int>, p: nat) {
    0 < p < |status| && status[p] != status[p - 1]
  }

  /** Some entry starts with page p. */
  ghost predicate StartsAt(entries: seq<Entry>, start: Word, p: nat) {
    exists k :: 0 <= k < |entries| && entries[k].start == PageStart(start, p)
  }

  ghost predicate Uniform(status: seq<int>, from: nat, to: nat) {
    from < to <= |status| && forall p :: from <= p < to ==> status[p] == status[from]
  }

  ghost function RunEnd(cuts: seq<nat>, n: nat, k: nat): nat
    requires k < |cuts|
  {
    if k + 1 < |cuts| then cuts[k + 1] else n
  }

  /** Pages below n fall into runs of one status; run k starts at page cuts[k], where the status turns. */
  ghost predicate Runs(cuts: seq<nat>, n: nat, status: seq<int>) {
    && cuts != [] && cuts[0] == 0
    && (forall k :: 0 < k < |cuts| ==> Turns(status, cuts[k]))
    && (forall k :: 0 <= k < |cuts| ==> Uniform(status, cuts[k], RunEnd(cuts, n, k)))
  }

  /** The entry of the pages from `from` up to `to`. */
  ghost predicate Covers(e: Entry, start: Word, from: nat, to: nat, status: seq<int>) {
    && from < to && from < |status|
    && e.start == PageStart(start, from) && e.start + e.len == PageStart(start, to) &&
       e.location == CpuNodeName(status[from])
  }

  /** How far the scan has come: one entry for each run but the last, which is still open. */
  ghost predicate Scanned(entries: seq<Entry>, cuts: seq<nat>, start: Word, n: nat, status: seq<int>) {
    && Runs(cuts, n, status) && |cuts| == |entries| + 1
    && forall k :: 0 <= k < |entries| ==> Covers(entries[k], start, cuts[k], RunEnd(cuts, n, k), status)
  }

  ghost predicate Inside(e: Entry, a: int) {
    e.start <= a < e.start + e.len
  }

  /** The location names the node of the page of the byte at `a`, or of the first page if only that is asked for. */
  ghost predicate ByteNamed(location: string, start: Word, onlyFirst: bool, status: seq<int>, a: int) {
    var p := if onlyFirst then 0 else a / 4096 - start / 4096;
    0 <= p < |status| && NamesNode(location, status[p])
  }

  lemma BytesNamed(entries: seq<Entry>, start: Word, status: seq<int>, k: nat, a: int)
    requires Labelled(entries, start, status) && k < |entries| && Inside(entries[k], a)
    ensures ByteNamed(entries[k].location, start, false, status, a)
  {
    assert PageOf(start, a) == a / 4096 - start / 4096;
    NameMeans(status[PageOf(start, a)]);
  }

  /** getMemoryLocation for host memory. */
  method GetMemoryLocation(start: Word, len: Word, onlyFirst: bool, rc: int, status: seq<int>)
    returns (entries: seq<Entry>)
    requires |status| == PageCount(start, len, onlyFirst)
    requires rc == 0 ==> |status| > 0          // after a good query the code reads the status of the first page
    requires start + len <= WORD_SPAN          // a range of memory
    ensures Tile(entries, start, start + len)
    ensures len > 0 ==> forall e <- entries :: e.len > 0
    ensures rc != 0 ==> entries == [Entry(start, len, "*")]
    ensures rc == 0 && onlyFirst ==> entries == [Entry(start, len, CpuNodeName(status[0]))]
    // every byte carries the name of the node of its page, or of the first page
    ensures rc == 0 ==> forall k, a :: 0 <= k < |entries| && Inside(entries[k], a) ==>
              ByteNamed(entries[k].location, start, onlyFirst, status, a)
    ensures rc == 0 && !onlyFirst ==> Labelled(entries, start, status)
    ensures rc == 0 && !onlyFirst ==>
              forall p :: 0 < p < |status| ==> (StartsAt(entries, start, p) <==> Turns(status, p))
  {
    if rc != 0 {
      return [Entry(start, len, WILDCARD)];
    }
    ghost var cuts;
    var startAddr, node;
    entries, startAddr, node, cuts := ScanPages(start, status);
    LastPage(start, len, cuts[|entries|], onlyFirst);
    var e := Entry(startAddr, start + len - startAddr, CpuNodeName(node));
    AllTiled(entries, e, cuts, start, len, status);
    if !onlyFirst {
      AllLabelled(entries, e, cuts, start, len, status);
      AllCut(entries, e, cuts, start, len, status);
    } else {
      assert cuts[|entries|] == 0 && entries == [];
      NameMeans(status[0]);
    }
    entries := entries + [e];
    if !onlyFirst {
      forall k, a | 0 <= k < |entries| && Inside(entries[k], a)
        ensures ByteNamed(entries[k].location, start, onlyFirst, status, a)
      {
        BytesNamed(entries, start, status, k, a);
      }
    }
  }

  /** The loop over the pages: closes a run wherever the status changes. */
  method ScanPages(start: Word, status: seq<int>)
    returns (entries: seq<Entry>, startAddr: Word, node: int, ghost cuts: seq<nat>)
    requires status != [] && AlignPage(start) + |status| * PAGE < WORD_SPAN + PAGE
    ensures Scanned(entries, cuts, start, |status|, status)
    ensures startAddr == PageStart(start, cuts[|entries|]) && node == status[cuts[|entries|]]
    ensures Uniform(status, cuts[|entries|], |status|) && (|status| == 1 ==> entries == [])
  {
    node, startAddr, entries, cuts := status[0], start, [], [0];
    for i := 1 to |status|
      invariant Scanning(entries, cuts, start, i, status, startAddr, node) && (i == 1 ==> entries == [])
    {
      entries, startAddr, node, cuts := ScanPage(start, status, i, entries, startAddr, node, cuts);
    }
    assert Uniform(status, cuts[|entries|], RunEnd(cuts, |status|, |entries|));
  }

  /** The scan with the start and the node of its open run. */
  ghost predicate Scanning(entries: seq<Entry>, cuts: seq<nat>, start: Word, n: nat, status: seq<int>, startAddr: int,
                           node: int)
  {
    && Scanned(entries, cuts, start, n, status) && cuts[|entries|] < |status|
    && node == status[cuts[|entries|]] && startAddr == PageStart(start, cuts[|entries|])
  }

  /** One page: the open run goes on, or is closed and the next one starts here. */
  method ScanPage(start: Word, status: seq<int>, i: nat, entries: seq<Entry>, startAddr: Word, node: int,
                  ghost cuts: seq<nat>)
    returns (entries': seq<Entry>, startAddr': Word, node': int, ghost cuts': seq<nat>)
    requires 0 < i < |status| && AlignPage(start) + |status| * PAGE < WORD_SPAN + PAGE
    requires Scanning(entries, cuts, start, i, status, startAddr, node)
    ensures Scanning(entries', cuts', start, i + 1, status, startAddr', node')
  {
    entries', startAddr', node', cuts' := entries, startAddr, node, cuts;
    if status[i] != node {
      assert Uniform(status, cuts[|entries|], RunEnd(cuts, i, |entries|));
      var newStart := AlignPage(start) + i * PAGE;
      var e := Entry(startAddr, newStart - startAddr, CpuNodeName(node));
      EntryAdded(entries, cuts, start, i, status, e);
      entries', cuts' := entries + [e], cuts + [i];
      startAddr', node' := newStart, status[i];
    } else {
      RunGrows(entries, cuts, start, i, status);
    }
  }

  lemma LastRunGrows(cuts: seq<nat>, i: nat, status: seq<int>)
    requires i < |status| && Runs(cuts, i, status) && status[i] == status[cuts[|cuts| - 1]]
    ensures Runs(cuts, i + 1, status)
  {
    forall k | 0 <= k < |cuts| ensures Uniform(status, cuts[k], RunEnd(cuts, i + 1, k)) {
      assert Uniform(status, cuts[k], RunEnd(cuts, i, k));
    }
  }

  lemma RunGrows(entries: seq<Entry>, cuts: seq<nat>, start: Word, i: nat, status: seq<int>)
    requires i < |status| && Scanned(entries, cuts, start, i, status) && status[i] == status[cuts[|entries|]]
    ensures Scanned(entries, cuts, start, i + 1, status)
  {
    LastRunGrows(cuts, i, status);
    forall k | 0 <= k < |entries| ensures Covers(entries[k], start, cuts[k], RunEnd(cuts, i + 1, k), status) {
      assert Covers(entries[k], start, cuts[k], RunEnd(cuts, i, k), status);
    }
  }

  lemma CutAdded(cuts: seq<nat>, i: nat, status: seq<int>)
    requires i < |status| && Runs(cuts, i, status) && status[i] != status[cuts[|cuts| - 1]]
    ensures Runs(cuts + [i], i + 1, status)
  {
    var more, last := cuts + [i], |cuts| - 1;
    assert Uniform(status, cuts[last], RunEnd(cuts, i, last));
    forall k | 0 <= k < |more| ensures Uniform(status, more[k], RunEnd(more, i + 1, k)) {
      if k < |cuts| {
        assert RunEnd(more, i + 1, k) == RunEnd(cuts, i, k) && Uniform(status, cuts[k], RunEnd(cuts, i, k));
      }
    }
  }

  lemma EntryAdded(entries: seq<Entry>, cuts: seq<nat>, start: Word, i: nat, status: seq<int>, e: Entry)
    requires i < |status| && Scanned(entries, cuts, start, i, status) && status[i] != status[cuts[|entries|]]
    requires Covers(e, start, cuts[|entries|], i, status)
    ensures Scanned(entries + [e], cuts + [i], start, i + 1, status)
  {
    var more := cuts + [i];
    CutAdded(cuts, i, status);
    forall k | 0 <= k < |entries| + 1
      ensures Covers((entries + [e])[k], start, more[k], RunEnd(more, i + 1, k), status) {
      if k < |entries| { assert Covers(entries[k], start, cuts[k], RunEnd(cuts, i, k), status); }
    }
  }

  /** A page of the range starts before the range ends. */
  lemma LastPage(start: Word, len: Word, p: nat, onlyFirst: bool)
    requires p < PageCount(start, len, onlyFirst)
    ensures PageStart(start, p) <= start + len && (len > 0 ==> PageStart(start, p) < start + len)
  {
  }

  /** The last entry: from the last turn to the end of the range. */
  ghost predicate Last(e: Entry, entries: seq<Entry>, cuts: seq<nat>, start: Word, len: Word, status: seq<int>) {
    && Scanned(entries, cuts, start, |status|, status)
    && e.start == PageStart(start, cuts[|entries|]) && e.start + e.len == start + len
    && Uniform(status, cuts[|entries|], |status|) && e.location == CpuNodeName(status[cuts[|entries|]])
  }

  lemma AllTiled(entries: seq<Entry>, e: Entry, cuts: seq<nat>, start: Word, len: Word, status: seq<int>)
    requires Last(e, entries, cuts, start, len, status) && (len > 0 ==> e.len > 0)
    ensures Tile(entries + [e], start, start + len)
    ensures len > 0 ==> forall x <- entries + [e] :: x.len > 0
  {
    var all, n := entries + [e], |status|;
    if entries != [] { assert Covers(entries[0], start, cuts[0], RunEnd(cuts, n, 0), status); }
    forall i | 0 <= i < |all| - 1 ensures Adjacent(all, i) && all[i].len > 0 {
      assert Covers(entries[i], start, cuts[i], RunEnd(cuts, n, i), status);
      if i + 1 < |entries| { assert Covers(entries[i + 1], start, cuts[i + 1], RunEnd(cuts, n, i + 1), status); }
    }
  }

  lemma AllLabelled(entries: seq<Entry>, e: Entry, cuts: seq<nat>, start: Word, len: Word, status: seq<int>)
    requires Last(e, entries, cuts, start, len, status) && |status| == PageCount(start, len, false) &&
             start + len <= WORD_SPAN
    ensures Labelled(entries + [e], start, status)
  {
    NoPagesIff(start, len);
    var all, n := entries + [e], |status|;
    forall k, a | 0 <= k < |all| && all[k].start <= a < all[k].start + all[k].len
      ensures 0 <= PageOf(start, a) < n && all[k].location == CpuNodeName(status[PageOf(start, a)])
    {
      assert k < |entries| ==> Covers(entries[k], start, cuts[k], RunEnd(cuts, n, k), status);
      assert Uniform(status, cuts[k], RunEnd(cuts, n, k));
      assert cuts[k] <= PageOf(start, a) < RunEnd(cuts, n, k);
    }
  }

  /** Every page belongs to a run. */
  lemma {:induction false} RunOf(cuts: seq<nat>, n: nat, status: seq<int>, p: nat, top: nat) returns (k: nat)
    requires Runs(cuts, n, status) && top < |cuts| && p < RunEnd(cuts, n, top)
    ensures k < |cuts| && cuts[k] <= p < RunEnd(cuts, n, k)
  {
    if cuts[top] <= p { k := top; } else { k := RunOf(cuts, n, status, p, top - 1); }
  }

  /** Entries start exactly where the status turns. */
  lemma AllCut(entries: seq<Entry>, e: Entry, cuts: seq<nat>, start: Word, len: Word, status: seq<int>)
    requires Last(e, entries, cuts, start, len, status)
    ensures forall p :: 0 < p < |status| ==> (StartsAt(entries + [e], start, p) <==> Turns(status, p))
  {
    var all, n := entries + [e], |status|;
    forall k | 0 <= k < |all| ensures all[k].start == PageStart(start, cuts[k]) {
      assert k < |entries| ==> Covers(entries[k], start, cuts[k], RunEnd(cuts, n, k), status);
    }
    forall p | 0 < p < n ensures StartsAt(all, start, p) <==> Turns(status, p) {
      if Turns(status, p) {
        var k := TurnIsCut(cuts, n, status, p);
        assert all[k].start == PageStart(start, p);
      }
      if k :| 0 <= k < |all| && all[k].start == PageStart(start, p) {
        PagesDiffer(start, cuts[k], p);
      }
    }
  }

  lemma TurnIsCut(cuts: seq<nat>, n: nat, status: seq<int>, p: nat) returns (k: nat)
    requires Runs(cuts, n, status) && n == |status| && Turns(status, p)
    ensures k < |cuts| && cuts[k] == p
  {
    k := RunOf(cuts, n, status, p, |cuts| - 1);
    assert Uniform(status, cuts[k], RunEnd(cuts, n, k));
  }

  lemma PagesDiffer(start: Word, p: nat, q: nat)
    ensures PageStart(start, p) == PageStart(start, q) ==> p == q
  {
  }
}
