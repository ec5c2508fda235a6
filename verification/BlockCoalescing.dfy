/**
 Block lists of the vLLM connector: grouping block ids into runs of consecutive ids, one buffer per
 run, and what gathering from and scattering to those buffers does to the blocks of a layer.
 */
module BlockCoalescing {

  // ----- grouping -----

  ghost predicate IsRun(g: seq<int>) {
    g != [] && forall i :: 0 <= i < |g| ==> g[i] == g[0] + i
  }

  ghost function Flatten(groups: seq<seq<int>>): seq<int> {
    if groups == [] then [] else Flatten(groups[..|groups| - 1]) + groups[|groups| - 1]
  }

  /** The second group does not carry on where the first one ends. */
  ghost predicate Breaks(a: seq<int>, b: seq<int>)
    requires a != [] && b != []
  {
    b[0] != a[|a| - 1] + 1
  }

  /** Runs of consecutive ids, none of which could be longer. */
  ghost predicate Grouped(groups: seq<seq<int>>) {
    && (forall k :: 0 <= k < |groups| ==> IsRun(groups[k]))
    && forall j, k :: 0 <= j < k < |groups| && k == j + 1 ==> Breaks(groups[j], groups[k])
  }

  /** group_contiguous. */
  method GroupContiguous(indices: seq<int>) returns (groups: seq<seq<int>>)
    ensures Flatten(groups) == indices && Grouped(groups)
  {
    if indices == [] {
      return [];
    }
    groups := [[indices[0]]];
    FlattenGrows([], [indices[0]]);
    for i := 1 to |indices|
      invariant groups != [] && Flatten(groups) == indices[..i] && Grouped(groups)
    {
      var last := groups[|groups| - 1];
      assert indices[..i + 1] == indices[..i] + [indices[i]];
      if indices[i] == last[|last| - 1] + 1 {
        LastGrows(groups, indices[i]);
        groups := groups[..|groups| - 1] + [last + [indices[i]]];
      } else {
        GroupAdded(groups, indices[i]);
        groups := groups + [[indices[i]]];
      }
    }
    assert indices[..|indices|] == indices;
  }

  lemma LastGrows(groups: seq<seq<int>>, x: int)
    requires groups != [] && Grouped(groups) && x == groups[|groups| - 1][|groups[|groups| - 1]| - 1] + 1
    ensures var more := groups[..|groups| - 1] + [groups[|groups| - 1] + [x]];
            Grouped(more) && Flatten(more) == Flatten(groups) + [x]
  {
    var init, last := groups[..|groups| - 1], groups[|groups| - 1];
    var more := init + [last + [x]];
    FlattenGrows(init, last + [x]);
    assert Flatten(more) == Flatten(init) + (last + [x]) == Flatten(init) + last + [x];
    forall j, k | 0 <= j < k < |more| && k == j + 1 ensures Breaks(more[j], more[k]) {
      assert Breaks(groups[j], groups[k]);
    }
  }

  lemma GroupAdded(groups: seq<seq<int>>, x: int)
    requires groups != [] && Grouped(groups) && x != groups[|groups| - 1][|groups[|groups| - 1]| - 1] + 1
    ensures Grouped(groups + [[x]]) && Flatten(groups + [[x]]) == Flatten(groups) + [x]
  {
    FlattenGrows(groups, [x]);
    var more, n := groups + [[x]], |groups|;
    assert IsRun(more[n]) && Breaks(more[n - 1], more[n]);
    forall j, k | 0 <= j < k < |more| && k == j + 1 ensures Breaks(more[j], more[k]) {
      assert k == n || Breaks(groups[j], groups[k]);
    }
  }

  lemma FlattenGrows(groups: seq<seq<int>>, g: seq<int>)
    ensures Flatten(groups + [g]) == Flatten(groups) + g
  {
    assert (groups + [g])[..|groups|] == groups;
  }

  /** The last group is a run at the end of the list, and no longer stretch of the end is one. */
  lemma LastGroupLongest(groups: seq<seq<int>>, n: nat)
    requires groups != [] && Grouped(groups)
    ensures var all, last := Flatten(groups), groups[|groups| - 1];
            && |last| <= |all| && all[|all| - |last|..] == last
            && (|last| < n <= |all| ==> !IsRun(all[|all| - n..]))
  {
    var all, last, init := Flatten(groups), groups[|groups| - 1], groups[..|groups| - 1];
    assert all == Flatten(init) + last;
    if |last| < n <= |all| {
      NonEmpty(init);
      var before := init[|init| - 1];
      assert Flatten(init) == Flatten(init[..|init| - 1]) + before;
      assert Breaks(groups[|groups| - 2], groups[|groups| - 1]);
      var run, at := all[|all| - n..], n - |last|;
      assert run[at] == last[0] && run[at - 1] == before[|before| - 1];
    }
  }

  /** A list has one grouping only: keeping the ids and being maximal determines the result. */
  lemma {:induction false} GroupingUnique(a: seq<seq<int>>, b: seq<seq<int>>)
    requires Grouped(a) && Grouped(b) && Flatten(a) == Flatten(b)
    ensures a == b
    decreases |a|
  {
    NonEmpty(a);
    NonEmpty(b);
    if a != [] {
      LastSame(a, b);
      InitGrouped(a);
      InitGrouped(b);
      GroupingUnique(a[..|a| - 1], b[..|b| - 1]);
      assert a == a[..|a| - 1] + [a[|a| - 1]] && b == b[..|b| - 1] + [b[|b| - 1]];
    }
  }

  lemma LastSame(a: seq<seq<int>>, b: seq<seq<int>>)
    requires a != [] && b != [] && Grouped(a) && Grouped(b) && Flatten(a) == Flatten(b)
    ensures a[|a| - 1] == b[|b| - 1] && Flatten(a[..|a| - 1]) == Flatten(b[..|b| - 1])
  {
    LastGroupLongest(a, |b[|b| - 1]|);
    LastGroupLongest(b, |a[|a| - 1]|);
    InitFlat(a);
    InitFlat(b);
  }

  lemma InitGrouped(groups: seq<seq<int>>)
    requires groups != [] && Grouped(groups)
    ensures Grouped(groups[..|groups| - 1])
  {
    var init := groups[..|groups| - 1];
    forall j, k | 0 <= j < k < |init| && k == j + 1 ensures Breaks(init[j], init[k]) {
      assert Breaks(groups[j], groups[k]);
    }
  }

  lemma InitFlat(groups: seq<seq<int>>)
    requires groups != []
    ensures var last := groups[|groups| - 1];
            |last| <= |Flatten(groups)| &&
            Flatten(groups[..|groups| - 1]) == Flatten(groups)[..|Flatten(groups)| - |last|]
  {
  }

  lemma NonEmpty(groups: seq<seq<int>>)
    requires Grouped(groups)
    ensures groups == [] <==> Flatten(groups) == []
  {
  }
}
