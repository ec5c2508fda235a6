/**
 What the parser of location names makes of any text: which texts have a number, which tokens make up a
 list of nodes, and which names are parsed.
 */
module SegmentsParsing {
  import opened Machine
  import opened MemoryLocation
  import opened SegmentsLocation

  /** White space, an optional sign, digits, and something that does not start with a digit. */
  ghost predicate ReadsAs(s: string, spaces: string, sign: string, digits: string, rest: string) {
    && s == spaces + sign + digits + rest && (forall k :: 0 <= k < |spaces| ==>
                                                spaces[k] == ' ' || '\t' <= spaces[k] <= '\r')
    && (sign == "" || sign == "-" || sign == "+")
    && digits != "" && (forall k :: 0 <= k < |digits| ==> IsDigit(digits[k])) && (rest == "" || !IsDigit(rest[0]))
  }

  lemma {:induction false} SpacesSkipped(spaces: string, t: string)
    requires (forall k :: 0 <= k < |spaces| ==> spaces[k] == ' ' || '\t' <= spaces[k] <= '\r') &&
             (t == "" || !IsSpace(t[0]))
    ensures SkipSpaces(spaces + t) == t
  {
    if spaces == "" {
      assert spaces + t == t;
    } else {
      assert (spaces + t)[1..] == spaces[1..] + t;
      SpacesSkipped(spaces[1..], t);
    }
  }

  lemma {:induction false} RunThenRest(digits: string, rest: string)
    requires (forall k :: 0 <= k < |digits| ==> IsDigit(digits[k])) && (rest == "" || !IsDigit(rest[0]))
    ensures DigitRun(digits + rest) == |digits|
  {
    if digits == "" {
      assert digits + rest == rest;
    } else {
      assert (digits + rest)[1..] == digits[1..] + rest;
      RunThenRest(digits[1..], rest);
    }
  }

  /** The number of such a text is that of its digits, with its sign. */
  lemma ScanReads(s: string, spaces: string, sign: string, digits: string, rest: string)
    requires ReadsAs(s, spaces, sign, digits, rest)
    ensures Scan(s) == Some((sign == "-", Number(digits)))
  {
    var t := sign + (digits + rest);
    assert s == spaces + t && t[0] == (if sign == "" then digits[0] else sign[0]);
    SpacesSkipped(spaces, t);
    assert sign != "" ==> t[1..] == digits + rest;
    assert sign == "" ==> t == digits + rest;
    RunThenRest(digits, rest);
    assert (digits + rest)[..|digits|] == digits;
  }

  lemma {:induction false} SkippedSpaces(s: string) returns (spaces: string)
    ensures s == spaces + SkipSpaces(s) && forall k :: 0 <= k < |spaces| ==>
              spaces[k] == ' ' || '\t' <= spaces[k] <= '\r'
    ensures SkipSpaces(s) == "" || !IsSpace(SkipSpaces(s)[0])
  {
    if s != "" && IsSpace(s[0]) {
      spaces := SkippedSpaces(s[1..]);
      assert s == [s[0]] + s[1..];
      spaces := [s[0]] + spaces;
    } else {
      spaces := "";
    }
  }

  /** Only such a text has a number. */
  lemma ScanOnlyReads(s: string) returns (spaces: string, sign: string, digits: string, rest: string)
    requires Scan(s).Some?
    ensures ReadsAs(s, spaces, sign, digits, rest)
  {
    spaces := SkippedSpaces(s);
    var t := SkipSpaces(s);
    sign := if t != "" && (t[0] == '-' || t[0] == '+') then t[..1] else "";
    var u := t[|sign|..];
    assert t == sign + u;
    digits, rest := Split(u);
    Reassemble(s, spaces, sign, digits, rest, t, u);
  }

  lemma Split(u: string) returns (digits: string, rest: string)
    requires DigitRun(u) > 0
    ensures u == digits + rest && digits != "" && forall k :: 0 <= k < |digits| ==> IsDigit(digits[k])
    ensures rest == "" || !IsDigit(rest[0])
  {
    digits, rest := u[..DigitRun(u)], u[DigitRun(u)..];
  }

  lemma Reassemble(s: string, spaces: string, sign: string, digits: string, rest: string, t: string, u: string)
    requires s == spaces + t && t == sign + u && u == digits + rest
    ensures s == spaces + sign + digits + rest
  {
  }

  /** std::stoi and std::stoull of a text that has a number. */
  lemma NumbersRead(s: string, spaces: string, sign: string, digits: string, rest: string)
    requires ReadsAs(s, spaces, sign, digits, rest)
    ensures var x := if sign == "-" then -(Number(digits) as int) else Number(digits);
            Stoi(s) == if -0x8000_0000 <= x < 0x8000_0000 then Some(x) else None
    ensures var n := Number(digits);
            Stoull(s) == if n >= WORD_SPAN then None else if sign == "-" then Some((WORD_SPAN - n) % WORD_SPAN)
                else Some(n)
  {
    ScanReads(s, spaces, sign, digits, rest);
  }

  /** Without a number both throw. */
  lemma NumberNeeded(s: string)
    ensures Stoi(s).Some? || Stoull(s).Some? ==>
              exists spaces, sign, digits, rest :: ReadsAs(s, spaces, sign, digits, rest)
  {
    if Scan(s).Some? {
      var spaces, sign, digits, rest := ScanOnlyReads(s);
    }
  }

  function Commas(tokens: seq<string>): string
    requires tokens != []
  {
    if |tokens| == 1 then tokens[0] else tokens[0] + [','] + Commas(tokens[1..])
  }

  /** The numbers of the tokens that are not empty. */
  function Kept(tokens: seq<string>): seq<int>
    requires forall t <- tokens :: t != "" ==> Stoi(t).Some?
  {
    if tokens == [] then [] else
      assert tokens[0] in tokens;
      (if tokens[0] == "" then [] else [Stoi(tokens[0]).value]) + Kept(tokens[1..])
  }

  /** A list of tokens is read exactly if those that are not empty are numbers; the empty ones are skipped. */
  lemma {:induction false} NodesRead(tokens: seq<string>)
    requires tokens != [] && forall t <- tokens :: ',' !in t
    ensures Nodes(Commas(tokens)).Some? <==> forall t <- tokens :: t != "" ==> Stoi(t).Some?
    ensures Nodes(Commas(tokens)).Some? ==> Nodes(Commas(tokens)).value == Kept(tokens)
  {
    var first, more := tokens[0], tokens[1..];
    assert first in tokens && tokens == [first] + more;
    if more == [] {
      OneToken(first);
    } else {
      NodesRead(more);
      FirstToken(first, Commas(more));
    }
  }

  lemma OneToken(t: string)
    requires ',' !in t
    ensures Nodes(t) == if t == "" then Some([]) else if Stoi(t).None? then None else Some([Stoi(t).value])
  {
    if t != "" {
      assert Token(t) == (t, "");
      if Stoi(t).Some? { NodesFirst(t, Stoi(t).value, ""); }
    }
  }

  lemma FirstToken(t: string, rest: string)
    requires ',' !in t
    ensures Nodes(t + [','] + rest) ==
            if t == "" then Nodes(rest) else if Stoi(t).None? then None else Prepend([Stoi(t).value], Nodes(rest))
  {
    FindFirst(t, ',', rest);
    Cut(t, ',', rest);
    assert Token(t + [','] + rest) == (t, rest);
  }

  /** A name with the prefix is parsed exactly if there is a page size before its first colon and a node after it. */
  lemma ParsedReads(page: string, list: string)
    requires ':' !in page
    ensures Parsed("segments:" + page + ":" + list) ==
            if Stoull(page).None? || Nodes(list).None? || Nodes(list).value == [] then None
            else Some(Info(Stoull(page).value, Nodes(list).value))
  {
    var name := "segments:" + page + ":" + list;
    Regroup("segments:", page, ":", list);
    assert name[9..] == page + [':'] + list;
    FindFirst(page, ':', list);
    Cut(page, ':', list);
  }

  /** No other name is parsed. */
  lemma OnlyPrefixed(name: string)
    requires Parsed(name).Some?
    ensures "segments:" <= name && ':' in name[9..]
  {
  }
}
