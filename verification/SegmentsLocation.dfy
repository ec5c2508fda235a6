/**
 Location names of buffers that are spread over several NUMA nodes, "segments:<page>:<n0>,<n1>,...":
 the printer, the parser and the lookup of the node behind an offset.
 */
module SegmentsLocation {
  import opened Arithmetic
  import opened Machine
  import opened MemoryLocation

  const PREFIX := "segments:"
  const INT_LIMIT := 0x8000_0000

  datatype Info = Info(pageSize: Word, nodes: seq<int>)

  predicate IsInt(x: int) {
    -INT_LIMIT <= x < INT_LIMIT
  }

  // ----- std::stoull and std::stoi -----

  predicate IsSpace(c: char) {
    c == ' ' || '\t' <= c <= '\r'
  }

  function SkipSpaces(s: string): string {
    if s != "" && IsSpace(s[0]) then SkipSpaces(s[1..]) else s
  }

  /** Length of the leading run of digits. */
  function DigitRun(s: string): (n: nat)
    ensures n <= |s| && forall k :: 0 <= k < n ==> IsDigit(s[k])
    ensures n < |s| ==> !IsDigit(s[n])
  {
    if s != "" && IsDigit(s[0]) then 1 + DigitRun(s[1..]) else 0
  }

  /** Sign and magnitude of the number a text starts with; whatever follows it is ignored. */
  function Scan(s: string): Option<(bool, nat)> {
    var t := SkipSpaces(s);
    var negative := t != "" && t[0] == '-';
    var u := if t != "" && (t[0] == '-' || t[0] == '+') then t[1..] else t;
    var n := DigitRun(u);
    if n == 0 then None else Some((negative, Number(u[..n])))
  }

  /** Out of range is an exception; a minus sign negates modulo 2^64. */
  function Stoull(s: string): Option<Word> {
    match Scan(s)
    case None => None
    case Some((negative, m)) =>
      if m >= WORD_SPAN then None else if negative then Some(SubW(0, m)) else Some(m)
  }

  function Stoi(s: string): Option<int> {
    match Scan(s)
    case None => None
    case Some((negative, m)) =>
      var x: int := if negative then 0 - m else m;
      if IsInt(x) then Some(x) else None
  }

  /** std::string::find. */
  function Find(s: string, c: char): (at: Option<nat>)
    ensures at.None? ==> c !in s
    ensures at.Some? ==> at.value < |s| && s[at.value] == c && c !in s[..at.value]
  {
    if s == "" then None
    else if s[0] == c then Some(0)
    else match Find(s[1..], c)
      case None => None
      case Some(k) => assert s[..k + 1] == [s[0]] + s[1..][..k]; Some(k + 1)
  }

  // ----- what is printed and parsed -----

  function Join(nodes: seq<int>): string {
    if nodes == [] then ""
    else if |nodes| == 1 then Decimal(nodes[0])
    else Decimal(nodes[0]) + "," + Join(nodes[1..])
  }

  function Printed(info: Info): string {
    PREFIX + Decimal(info.pageSize) + ":" + Join(info.nodes)
  }

  /** The token before the first comma, and what follows that comma. */
  function Token(s: string): (r: (string, string))
    requires s != ""
    ensures |r.1| < |s|
  {
    match Find(s, ',')
    case None => (s, "")
    case Some(k) => (s[..k], s[k + 1..])
  }

  function Prepend(done: seq<int>, rest: Option<seq<int>>): Option<seq<int>> {
    if rest.None? then None else Some(done + rest.value)
  }

  /** Empty tokens are skipped; one that is no number spoils the list. */
  function Nodes(s: string): Option<seq<int>>
    decreases |s|
  {
    if s == "" then Some([]) else
      var (tok, rest) := Token(s);
      if tok == "" then Nodes(rest) else
        match Stoi(tok)
        case None => None
        case Some(x) => Prepend([x], Nodes(rest))
  }

  function Parsed(name: string): Option<Info> {
    if !(PREFIX <= name) then None else
      var body := name[|PREFIX|..];
      match Find(body, ':')
      case None => None
      case Some(colon) =>
        match Stoull(body[..colon])
        case None => None
        case Some(page) =>
          match Nodes(body[colon + 1..])
          case None => None
          case Some(nodes) => if nodes == [] then None else Some(Info(page, nodes))
  }

  /** buildSegmentsLocation. */
  method BuildSegmentsLocation(pageSize: Word, nodes: seq<int>) returns (result: string)
    ensures result == Printed(Info(pageSize, nodes))
  {
    result := PREFIX + Decimal(pageSize) + ":";
    ghost var head := result;
    assert nodes[..0] == [];
    for i := 0 to |nodes|
      invariant result == head + Join(nodes[..i])
    {
      var separator := if i > 0 then "," else "";
      JoinStep(head, nodes, i);
      result := result + separator + Decimal(nodes[i]);
    }
    assert nodes[..|nodes|] == nodes;
  }

  lemma JoinStep(head: string, nodes: seq<int>, i: nat)
    requires i < |nodes|
    ensures head + Join(nodes[..i]) + (if i > 0 then "," else "") + Decimal(nodes[i]) == head + Join(nodes[..i + 1])
  {
    var sep := if i > 0 then "," else "";
    JoinGrows(nodes[..i], nodes[i]);
    assert nodes[..i + 1] == nodes[..i] + [nodes[i]];
    Regroup(head, Join(nodes[..i]), sep, Decimal(nodes[i]));
  }

  lemma Regroup(a: string, b: string, c: string, d: string)
    ensures a + b + c + d == a + (b + c + d)
  {
  }

  lemma {:induction false} JoinGrows(nodes: seq<int>, x: int)
    ensures Join(nodes + [x]) == Join(nodes) + (if nodes == [] then "" else ",") + Decimal(x)
  {
    if |nodes| > 0 {
      JoinGrows(nodes[1..], x);
      assert (nodes + [x])[1..] == nodes[1..] + [x];
    }
  }

  /** parseSegmentsLocation; None stands for its false. */
  method ParseSegmentsLocation(name: string) returns (info: Option<Info>)
    ensures info == Parsed(name)
  {
    if !(PREFIX <= name) {
      return None;
    }
    var body := name[|PREFIX|..];
    var colon := Find(body, ':');
    if colon.None? {
      return None;
    }
    var page := Stoull(body[..colon.value]);
    if page.None? {
      return None;
    }
    var nodes := ParseNodes(body[colon.value + 1..]);
    if nodes.None? || nodes.value == [] {
      return None;
    }
    return Some(Info(page.value, nodes.value));
  }

  /** The token loop; None stands for the exception of std::stoi. */
  method ParseNodes(text: string) returns (r: Option<seq<int>>)
    ensures r == Nodes(text)
  {
    var nodes, pos := [], 0;
    assert text[0..] == text && text[|text|..] == "";
    PrependNothing([], Nodes(text));
    while pos < |text|
      invariant pos <= |text| && Nodes(text) == Prepend(nodes, Nodes(text[pos..]))
    {
      var tok, next := NextToken(text, pos);
      NodesStep(text[pos..], tok, text[next..]);
      if tok != "" {
        var x := Stoi(tok);
        if x.None? {
          return None;
        }
        PrependMore(nodes, x.value, Nodes(text[next..]));
        nodes := nodes + [x.value];
      }
      pos := next;
    }
    PrependNothing(nodes, None);
    return Some(nodes);
  }

  /** The token at a position and where the next one starts. */
  method NextToken(text: string, pos: nat) returns (tok: string, next: nat)
    requires pos < |text|
    ensures pos < next <= |text| && Token(text[pos..]) == (tok, text[next..])
  {
    var comma := Find(text[pos..], ',');
    tok := if comma.None? then text[pos..] else text[pos..pos + comma.value];
    next := if comma.None? then |text| else pos + comma.value + 1;
    assert text[|text|..] == "";
    assert comma.Some? ==> text[pos..][..comma.value] == tok && text[pos..][comma.value + 1..] == text[next..];
  }

  lemma NodesStep(s: string, tok: string, rest: string)
    requires s != "" && Token(s) == (tok, rest)
    ensures Nodes(s) ==
            if tok == "" then Nodes(rest) else if Stoi(tok).None? then None else Prepend([Stoi(tok).value], Nodes(rest))
  {
  }

  lemma PrependNothing(done: seq<int>, rest: Option<seq<int>>)
    ensures Prepend([], rest) == rest && Prepend(done, Some([])) == Some(done)
  {
    if rest.Some? { assert [] + rest.value == rest.value; }
    assert done + [] == done;
  }

  lemma PrependMore(done: seq<int>, x: int, rest: Option<seq<int>>)
    ensures Prepend(done + [x], rest) == Prepend(done, Prepend([x], rest))
  {
    if rest.Some? { assert done + [x] + rest.value == done + ([x] + rest.value); }
  }

  // ----- round trip -----

  lemma {:induction false} AllDigitRun(s: string)
    requires forall k :: 0 <= k < |s| ==> IsDigit(s[k])
    ensures DigitRun(s) == |s|
  {
    if s != "" { AllDigitRun(s[1..]); }
  }

  /** A text of digits, with or without a minus sign, is read as a whole. */
  lemma ScanDigits(s: string)
    requires s != "" && forall k :: 0 <= k < |s| ==> IsDigit(s[k])
    ensures Scan(s) == Some((false, Number(s))) && Scan("-" + s) == Some((true, Number(s)))
  {
    ScanPlain(s);
    ScanMinus(s);
  }

  lemma ScanPlain(s: string)
    requires s != "" && forall k :: 0 <= k < |s| ==> IsDigit(s[k])
    ensures Scan(s) == Some((false, Number(s)))
  {
    AllDigitRun(s);
    NothingSkipped(s);
    ScanUnsigned(s);
  }

  lemma NothingSkipped(s: string)
    requires s != "" && IsDigit(s[0])
    ensures SkipSpaces(s) == s
  {
  }

  lemma ScanUnsigned(s: string)
    requires s != "" && IsDigit(s[0]) && SkipSpaces(s) == s
    requires DigitRun(s) == |s| && forall k :: 0 <= k < |s| ==> IsDigit(s[k])
    ensures Scan(s) == Some((false, Number(s)))
  {
    assert s[..|s|] == s;
  }

  lemma ScanMinus(s: string)
    requires s != "" && forall k :: 0 <= k < |s| ==> IsDigit(s[k])
    ensures Scan("-" + s) == Some((true, Number(s)))
  {
    var t := "-" + s;
    assert SkipSpaces(t) == t;
    assert t[1..] == s;
    AllDigitRun(s);
    ScanSigned(t, s);
  }

  lemma ScanSigned(t: string, s: string)
    requires t != "" && t[0] == '-' && SkipSpaces(t) == t && t[1..] == s && s != ""
    requires DigitRun(s) == |s| && forall k :: 0 <= k < |s| ==> IsDigit(s[k])
    ensures Scan(t) == Some((true, Number(s)))
  {
    assert s[..|s|] == s;
  }

  lemma ScanDecimal(x: int)
    ensures Scan(Decimal(x)) == Some((x < 0, if x < 0 then -x else x))
  {
    var m: nat := if x < 0 then -x else x;
    DigitsRead(m);
    ScanDigits(Digits(m));
  }

  /** A printed number has neither commas nor colons. */
  lemma PlainDecimal(x: int, c: char)
    requires c == ',' || c == ':'
    ensures c !in Decimal(x) && Decimal(x) != ""
  {
    DigitsRead(if x < 0 then -x else x);
  }

  lemma {:induction false} FindFirst(a: string, c: char, b: string)
    requires c !in a
    ensures Find(a + [c] + b, c) == Some(|a|)
  {
    if a != "" {
      FindFirst(a[1..], c, b);
      assert (a + [c] + b)[1..] == a[1..] + [c] + b;
    }
  }

  /** Cutting at the first occurrence takes a joined text apart. */
  lemma Cut(a: string, c: char, b: string)
    ensures (a + [c] + b)[..|a|] == a && (a + [c] + b)[|a| + 1..] == b
  {
  }

  /** A number, alone or before a comma, is the first node of the list. */
  lemma NodesFirst(first: string, x: int, rest: string)
    requires first != "" && ',' !in first && Stoi(first) == Some(x)
    ensures Nodes(first) == Some([x]) && Nodes(first + [','] + rest) == Prepend([x], Nodes(rest))
  {
    assert Token(first) == (first, "") && [x] + [] == [x];
    FindFirst(first, ',', rest);
    Cut(first, ',', rest);
    assert Token(first + [','] + rest) == (first, rest);
  }

  lemma {:induction false} NodesJoined(nodes: seq<int>)
    requires forall x <- nodes :: IsInt(x)
    ensures Nodes(Join(nodes)) == Some(nodes)
  {
    if nodes != [] {
      var first, rest := Decimal(nodes[0]), Join(nodes[1..]);
      PlainDecimal(nodes[0], ',');
      StoiDecimal(nodes[0]);
      NodesFirst(first, nodes[0], rest);
      NodesJoined(nodes[1..]);
      assert nodes == [nodes[0]] + nodes[1..];
    }
  }

  lemma StoiDecimal(x: int)
    requires IsInt(x)
    ensures Stoi(Decimal(x)) == Some(x)
  {
    ScanDecimal(x);
  }

  /** The parser inverts the printer on every page size and every list of nodes but the empty one. */
  lemma RoundTrip(info: Info)
    requires forall x <- info.nodes :: IsInt(x)
    ensures Parsed(Printed(info)) == if info.nodes == [] then None else Some(info)
  {
    var page, list := Decimal(info.pageSize), Join(info.nodes);
    var body := page + [':'] + list;
    assert PREFIX <= Printed(info) && Printed(info)[|PREFIX|..] == body by {
      PrintedBody(info);
    }
    PlainDecimal(info.pageSize, ':');
    FindFirst(page, ':', list);
    Cut(page, ':', list);
    ScanDecimal(info.pageSize);
    NodesJoined(info.nodes);
  }

  lemma PrintedBody(info: Info)
    ensures PREFIX <= Printed(info)
    ensures Printed(info)[|PREFIX|..] == Decimal(info.pageSize) + [':'] + Join(info.nodes)
  {
    Regroup(PREFIX, Decimal(info.pageSize), ":", Join(info.nodes));
  }

  lemma {:induction false} NodesAreInts(s: string)
    ensures Nodes(s).Some? ==> forall x <- Nodes(s).value :: IsInt(x)
    decreases |s|
  {
    if s != "" { NodesAreInts(Token(s).1); }
  }

  /** Whatever text the parser accepts, printing the result and parsing again gives the same. */
  lemma ParsedIsPrintable(name: string)
    requires Parsed(name).Some?
    ensures Parsed(Printed(Parsed(name).value)) == Parsed(name)
  {
    var body := name[|PREFIX|..];
    NodesAreInts(body[Find(body, ':').value + 1..]);
    RoundTrip(Parsed(name).value);
  }

  // ----- the node behind an offset -----

  /** Index of the region that holds an offset, after the clamp. */
  function Region(n: nat, length: Word, offset: Word): (idx: nat)
    requires 0 < n <= length
    ensures idx < n
  {
    RegionSizePositive(n, length);
    var idx := offset / (length / n);
    if idx >= n then n - 1 else idx
  }

  /**
   Region r of n equal regions, the last of which takes in the tail: an offset in it resolves to node r;
   without nodes or with fewer bytes than nodes the location is unknown.
   */
  lemma ResolveMeans(info: Info, length: Word, offset: Word, r: nat)
    ensures info.nodes == [] || length < |info.nodes| ==> Resolve(info, length, offset) == "*"
    ensures info.nodes != [] && |info.nodes| <= length && r < |info.nodes| && r * (length / |info.nodes|) <= offset &&
            (r == |info.nodes| - 1 || offset < (r + 1) * (length / |info.nodes|)) ==>
              Resolve(info, length, offset) == "cpu:" + Decimal(info.nodes[r])
  {
    var n := |info.nodes|;
    if 0 < n <= length && r < n && r * (length / n) <= offset {
      RegionSizePositive(n, length);
      Quotient(offset, length / n);
      MulLe(offset / (length / n) + 1, r, length / n);
      if offset < (r + 1) * (length / n) { DivUnique(offset, r, length / n); }
    }
  }

  lemma RegionSizePositive(n: nat, length: Word)
    requires 0 < n <= length
    ensures length / n > 0
  {
  }

  /** resolveSegmentsLocation. */
  function Resolve(info: Info, length: Word, offset: Word): string {
    var n := |info.nodes|;
    if n == 0 || length < n then WILDCARD          // a region of no bytes
    else "cpu:" + Decimal(info.nodes[Region(n, length, offset)])
  }

  /** What the transport does with the name of a buffer: a segments name is resolved, any other is kept. */
  function BufferLocation(name: string, length: Word, offset: Word): string {
    match Parsed(name)
    case None => name
    case Some(info) => Resolve(info, length, offset)
  }

  /** Offsets of one page never fall into two regions. */
  ghost predicate PagesWhole(n: nat, length: Word, page: Word)
    requires 0 < n <= length && page > 0
  {
    forall a: Word, b: Word | a < length && b < length && a / page == b / page ::
      Region(n, length, a) == Region(n, length, b)
  }

  /** Pages stay whole exactly when there is one region or its size is a number of pages. */
  lemma PagesWholeIff(n: nat, length: Word, page: Word)
    requires 0 < n <= length && page > 0
    ensures PagesWhole(n, length, page) <==> n == 1 || length / n % page == 0
  {
    RegionSizePositive(n, length);
    var r := length / n;
    if n == 1 {
    } else if r % page == 0 {
      WholeIfAligned(n, length, page);
    } else {
      SplitPage(n, length, page);
    }
  }

  lemma WholeIfAligned(n: nat, length: Word, page: Word)
    requires 0 < n <= length && page > 0 && length / n % page == 0
    ensures PagesWhole(n, length, page)
  {
    RegionSizePositive(n, length);
    var c := length / n / page;
    assert length / n == c * page == page * c && c > 0;
    forall a: Word, b: Word | a < length && b < length && a / page == b / page
      ensures Region(n, length, a) == Region(n, length, b)
    {
      DivDiv(a, page, c);
      DivDiv(b, page, c);
    }
  }

  /** The page across the first border is split. */
  lemma SplitPage(n: nat, length: Word, page: Word)
    requires 1 < n <= length && page > 0 && length / n % page != 0
    ensures !PagesWhole(n, length, page)
  {
    Smaller(n, length);
    Border(length / n, page);
    assert Region(n, length, length / n - 1) == 0 && Region(n, length, length / n) == 1;
  }

  lemma Smaller(n: nat, length: Word)
    requires 1 < n <= length
    ensures 0 < length / n < length
  {
    RegionSizePositive(n, length);
    MulLe(2, n, length / n);
  }

  lemma Border(r: int, page: int)
    requires r > 0 && page > 0 && r % page != 0
    ensures (r - 1) / page == r / page && (r - 1) / r == 0 && r / r == 1
  {
    var p := r / page;
    assert p * page < r < p * page + page;
    assert (p + 1) * page == p * page + page;
    DivUnique(r - 1, p, page);
    DivUnique(r - 1, 0, r);
    DivUnique(r, 1, r);
  }

  /** The clamp is for the tail bytes of a length that does not divide evenly. */
  lemma ClampedIff(n: nat, length: Word, offset: Word)
    requires 0 < n <= length && offset < length
    ensures offset / (length / n) >= n <==> offset >= length - length % n
  {
    RegionSizePositive(n, length);
    var r := length / n;
    Quotient(length, n);
    Quotient(offset, r);
    MulLe(n, offset / r, r);
    MulLe(offset / r + 1, n, r);
  }

  /**
   A buffer set up by the client, its length a multiple of the page size times the number of nodes:
   the name it is registered under resolves every offset to the node of its region, the regions are
   equal and page-aligned, none is clamped and no page belongs to two nodes.
   */
  lemma SetupLocated(info: Info, length: Word, offset: Word)
    requires info.nodes != [] && (forall x <- info.nodes :: IsInt(x)) && info.pageSize > 0
    requires info.pageSize * |info.nodes| > 0 && length % (info.pageSize * |info.nodes|) == 0 && offset < length
    ensures |info.nodes| <= length && PagesWhole(|info.nodes|, length, info.pageSize)
    ensures var r := length / |info.nodes|;
            && r > 0 && r % info.pageSize == 0 && r * |info.nodes| == length && offset / r < |info.nodes|
            && BufferLocation(Printed(info), length, offset) == "cpu:" + Decimal(info.nodes[offset / r])
  {
    var n, page := |info.nodes|, info.pageSize;
    Divisible(length, page, n);
    ClampedIff(n, length, offset);
    WholeIfAligned(n, length, page);
    RoundTrip(info);
  }

  lemma Divisible(length: Word, page: Word, n: nat)
    requires page > 0 && n > 0 && length > 0 && length % (page * n) == 0
    ensures n <= length && length / n % page == 0 && length / n * n == length && length % n == 0 && length / n > 0
  {
    var k := length / (page * n);
    assert length == k * (page * n) == (k * page) * n;
    assert k > 0 && k * page > 0;
    assert (k * page) * n >= n;
    DivUnique(length, k * page, n);
    DivUnique(k * page, k, page);
  }
}
