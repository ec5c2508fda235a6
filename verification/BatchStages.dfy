/**
 The batched put: one operation per key goes through start, submit, wait and finalize; finalize
 gathers the operations into six groups, one master call each, and settles every operation.
 */
module BatchStages {
  import opened Machine
  import opened Store
  import opened PutPolicy

  datatype OpState = Pending | MasterFailed | TransferFailed | FinalizeFailed | Succeeded

  /** A submitted transfer and what its future will yield. */
  datatype PendingTransfer = PendingTransfer(kind: Kind, outcome: ErrorCode)

  datatype PutOp = PutOp(key: string, state: OpState, result: Verdict, replicas: seq<Kind>,
                         transfers: seq<PendingTransfer>, requested: Config, summary: Summary)
  {
    function Fail(e: ErrorCode, terminal: OpState): PutOp {
      this.(state := terminal, result := Err(e))
    }

    function SetError(e: ErrorCode): PutOp {
      this.(result := Err(e),
            state := if replicas == [] then MasterFailed else if transfers == [] then TransferFailed
                else FinalizeFailed)
    }

    predicate Resolved() {
      state != Pending
    }

    predicate Successful() {
      state == Succeeded && result.Ok?
    }
  }

  function NewOp(key: string): PutOp {
    PutOp(key, Pending, Err(InternalError), [], [], Config(0, 0), ZERO)
  }

  // ----- start -----

  function StartOne(op: PutOp, mode: Mode, c: Config, start: Start): PutOp {
    var op := op.(requested := c);
    match start
    case StartFailed(e) => op.Fail(e, MasterFailed)
    case Started(replicas) =>
      var op := op.(replicas := replicas, summary := AllocSummary(replicas));
      if HasExpectedAllocation(mode, c, op.summary) then op else op.Fail(NoAvailableHandle, MasterFailed)
  }

  method StartBatchPut(ops: array<PutOp>, mode: Mode, c: Config, responses: seq<Start>)
    modifies ops
    ensures |responses| == ops.Length ==>
              forall i :: 0 <= i < ops.Length ==> ops[i] == StartOne(old(ops[i]), mode, c, responses[i])
    ensures |responses| != ops.Length ==>
              forall i :: 0 <= i < ops.Length ==> ops[i] == old(ops[i]).SetError(RpcFail)
  {
    if |responses| != ops.Length {
      for i := 0 to ops.Length
        invariant forall k :: 0 <= k < i ==> ops[k] == old(ops[k]).SetError(RpcFail)
        invariant forall k :: i <= k < ops.Length ==> ops[k] == old(ops[k])
      {
        ops[i] := ops[i].SetError(RpcFail);
      }
      return;
    }
    for i := 0 to ops.Length
      invariant forall k :: 0 <= k < i ==> ops[k] == StartOne(old(ops[k]), mode, c, responses[k])
      invariant forall k :: i <= k < ops.Length ==> ops[k] == old(ops[k])
    {
      var op := ops[i].(requested := c);
      match responses[i] {
        case StartFailed(e) =>
          op := op.Fail(e, MasterFailed);
        case Started(replicas) =>
          var summary := ZERO;
          for r := 0 to |replicas|
            invariant summary == AllocateUpTo(replicas, r)
          {
            summary := summary.Allocated(replicas[r]);
          }
          op := op.(replicas := replicas, summary := summary);
          if !HasExpectedAllocation(mode, c, summary) {
            op := op.Fail(NoAvailableHandle, MasterFailed);
          }
      }
      ops[i] := op;
    }
  }

  // ----- submit -----

  /** Submits the writes of the first k replicas; a write that cannot be submitted is a failure. */
  function SubmitUpTo(op: PutOp, xfer: Xfers, k: nat): PutOp
    requires k <= |op.replicas|
  {
    if k == 0 then op
    else
      var o, kind := SubmitUpTo(op, xfer, k - 1), op.replicas[k - 1];
      if !Transferred(kind) then o
      else match xfer(k - 1)
        case NotSubmitted => o.(summary := o.summary.Failure(kind, TransferFail))
        case Finished(e) => o.(transfers := o.transfers + [PendingTransfer(kind, e)])
  }

  function SubmitOne(op: PutOp, submitter: bool, xfer: Xfers): PutOp {
    if !submitter then op.Fail(InvalidParams, TransferFailed)
    else if op.Resolved() then op
    else if op.replicas == [] then op.Fail(InternalError, MasterFailed)
    else SubmitUpTo(op, xfer, |op.replicas|)
  }

  method SubmitTransfers(ops: array<PutOp>, submitter: bool, xfers: nat -> Xfers)
    modifies ops
    ensures forall i :: 0 <= i < ops.Length ==> ops[i] == SubmitOne(old(ops[i]), submitter, xfers(i))
  {
    for i := 0 to ops.Length
      invariant forall k :: 0 <= k < i ==> ops[k] == SubmitOne(old(ops[k]), submitter, xfers(k))
      invariant forall k :: i <= k < ops.Length ==> ops[k] == old(ops[k])
    {
      var op := ops[i];
      if !submitter {
        op := op.Fail(InvalidParams, TransferFailed);
      } else if !op.Resolved() {
        if op.replicas == [] {
          op := op.Fail(InternalError, MasterFailed);
        } else {
          for r := 0 to |op.replicas|
            invariant op.replicas == old(ops[i]).replicas
            invariant op == SubmitUpTo(old(ops[i]), xfers(i), r)
          {
            var kind := op.replicas[r];
            if Transferred(kind) {
              match xfers(i)(r) {
                case NotSubmitted => op := op.(summary := op.summary.Failure(kind, TransferFail));
                case Finished(e) => op := op.(transfers := op.transfers + [PendingTransfer(kind, e)]);
              }
            }
          }
        }
      }
      ops[i] := op;
    }
  }

  // ----- wait -----

  function WaitUpTo(s: Summary, transfers: seq<PendingTransfer>, k: nat): Summary
    requires k <= |transfers|
  {
    if k == 0 then s
    else WaitUpTo(s, transfers, k - 1).Outcome(transfers[k - 1].kind, transfers[k - 1].outcome)
  }

  function WaitOne(op: PutOp): PutOp {
    if op.Resolved() then op else op.(summary := WaitUpTo(op.summary, op.transfers, |op.transfers|))
  }

  method WaitForTransfers(ops: array<PutOp>)
    modifies ops
    ensures forall i :: 0 <= i < ops.Length ==> ops[i] == WaitOne(old(ops[i]))
  {
    for i := 0 to ops.Length
      invariant forall k :: 0 <= k < i ==> ops[k] == WaitOne(old(ops[k]))
      invariant forall k :: i <= k < ops.Length ==> ops[k] == old(ops[k])
    {
      if !ops[i].Resolved() {
        var op := ops[i];
        for t := 0 to |op.transfers|
          invariant op == old(ops[i]).(summary := WaitUpTo(old(ops[i]).summary, old(ops[i]).transfers, t))
        {
          var p := op.transfers[t];
          if p.outcome != NoError {
            op := op.(summary := op.summary.Failure(p.kind, p.outcome));
          } else {
            op := op.(summary := op.summary.Success(p.kind));
          }
        }
        ops[i] := op;
      }
    }
  }

  // ----- finalize: what is planned -----

  /**
   What finalize does with an operation: a resolved failure that holds replicas is revoked as a
   whole, a pending one that holds replicas is decided by the policy, any other needs no call.
   */
  function Plan(op: PutOp, mode: Mode): Decision {
    if op.Resolved() then
      if !op.Successful() && op.replicas != [] then
        Decision(None, Some(TypeAll), false, if op.result.Ok? then InternalError else op.result.error)
      else Decision(None, None, false, NoError)
    else if op.replicas == [] then Decision(None, None, false, NoError)
    else Decide(mode, op.requested, op.summary)
  }

  lemma PlanNamesNoDisk(op: PutOp, mode: Mode)
    ensures Plan(op, mode).end != Some(TypeDisk) && Plan(op, mode).revoke != Some(TypeDisk)
  {
  }

  /** The six groups, in the order their calls are made. */
  const SLOTS := 6

  /** The group whose operations are revoked entirely. */
  const REVOKE_ALL := 3

  function SlotOf(isEnd: bool, t: ReplicaType): Option<nat> {
    match t
    case TypeAll => Some(if isEnd then 0 else REVOKE_ALL)
    case TypeMemory => Some(if isEnd then 1 else 4)
    case TypeNof => Some(if isEnd then 2 else 5)
    case TypeDisk => None
  }

  predicate InSlot(d: Decision, s: nat) {
    (d.end.Some? && SlotOf(true, d.end.value) == Some(s)) ||
    (d.revoke.Some? && SlotOf(false, d.revoke.value) == Some(s))
  }

  /** The operations among the first n that belong to group s, in order. */
  function Members(plans: seq<Decision>, s: nat, n: nat): seq<nat>
    requires n <= |plans|
  {
    if n == 0 then [] else Members(plans, s, n - 1) + if InSlot(plans[n - 1], s) then [n - 1] else []
  }

  lemma {:induction false} MembersExact(plans: seq<Decision>, s: nat, n: nat)
    requires n <= |plans|
    ensures |Members(plans, s, n)| <= n
    ensures forall i :: i in Members(plans, s, n) <==> 0 <= i < n && InSlot(plans[i], s)
    ensures forall j, k :: 0 <= j < k < |Members(plans, s, n)| ==> Members(plans, s, n)[j] < Members(plans, s, n)[k]
  {
    if n > 0 {
      MembersExact(plans, s, n - 1);
      var m := Members(plans, s, n - 1);
      forall j | 0 <= j < |m| ensures m[j] < n - 1 {
        assert m[j] in m;
      }
    }
  }

  /** The position of operation i in group s is the number of members before it. */
  lemma {:induction false} MemberRank(plans: seq<Decision>, s: nat, i: nat, n: nat)
    requires i < n <= |plans| && InSlot(plans[i], s)
    ensures |Members(plans, s, i)| < |Members(plans, s, n)| && Members(plans, s, n)[|Members(plans, s, i)|] == i
    decreases n
  {
    if i < n - 1 { MemberRank(plans, s, i, n - 1); }
  }

  /** Replies to the call of each group: one entry per key, None for success; any number may come back. */
  type GroupReplies = nat -> seq<Option<ErrorCode>>

  function SlotError(plans: seq<Decision>, rpc: GroupReplies, s: nat, i: nat): Option<ErrorCode>
    requires i < |plans|
  {
    if !InSlot(plans[i], s) then None
    else if |rpc(s)| != |Members(plans, s, |plans|)| then Some(RpcFail)
    else
      MemberRank(plans, s, i, |plans|);
      rpc(s)[|Members(plans, s, i)|]
  }

  /** The error recorded for operation i once the first s groups are processed: the latest one. */
  function ErrorAfter(plans: seq<Decision>, rpc: GroupReplies, s: nat, i: nat): Option<ErrorCode>
    requires i < |plans|
  {
    if s == 0 then None
    else if SlotError(plans, rpc, s - 1, i).Some? then SlotError(plans, rpc, s - 1, i)
    else ErrorAfter(plans, rpc, s - 1, i)
  }

  /** How many calls from group s on still concern an operation with this plan. */
  function CallsLeft(d: Decision, s: nat): nat
    decreases SLOTS - s
  {
    if s >= SLOTS then 0 else CallsLeft(d, s + 1) + if InSlot(d, s) then 1 else 0
  }

  function Listed(t: Option<ReplicaType>): nat {
    if t.Some? && t.value != TypeDisk then 1 else 0
  }

  lemma AllCallsLeft(d: Decision)
    ensures CallsLeft(d, 0) == Listed(d.end) + Listed(d.revoke)
  {
    assert CallsLeft(d, 4) == (if InSlot(d, 4) then 1 else 0) + (if InSlot(d, 5) then 1 else 0);
    assert CallsLeft(d, 2) == (if InSlot(d, 2) then 1 else 0) + (if InSlot(d, 3) then 1 else 0) + CallsLeft(d, 4);
  }

  function Prepared(op: PutOp): PutOp {
    if !op.Resolved() && op.replicas == [] then op.Fail(InternalError, MasterFailed) else op
  }

  function Settled(op: PutOp, d: Decision, err: Option<ErrorCode>): PutOp {
    if op.Resolved() then op
    else if err.Some? then
      if !d.success && d.error != NoError then op.Fail(d.error, TransferFailed) else op.Fail(err.value, FinalizeFailed)
    else if d.success then op.(state := Succeeded, result := Ok(()))
    else op.Fail(d.error, TransferFailed)
  }

  // ----- finalize: the code -----

  datatype Group = Group(keys: seq<string>, indices: seq<nat>)

  datatype BatchCall = BatchCall(slot: nat, group: Group)

  /** The two vectors of a group run in parallel. */
  ghost predicate Parallel(g: Group, keys: seq<string>) {
    |g.keys| == |g.indices| &&
    forall k :: 0 <= k < |g.indices| ==> g.indices[k] < |keys| && g.keys[k] == keys[g.indices[k]]
  }

  method AddFinalizeAction(groups: seq<Group>, t: Option<ReplicaType>, isEnd: bool, key: string, index: nat,
                           pending: array<nat>, errors: array<Option<ErrorCode>>)
    returns (out: seq<Group>)
    requires |groups| == SLOTS && index < pending.Length == errors.Length
    modifies pending, errors
    ensures |out| == SLOTS
    ensures forall s :: 0 <= s < SLOTS ==>
              out[s] == if t.Some? && SlotOf(isEnd, t.value) == Some(s)
                        then Group(groups[s].keys + [key], groups[s].indices + [index]) else groups[s]
    ensures pending[index] == old(pending[index]) + Listed(t)
    ensures forall k :: 0 <= k < pending.Length && k != index ==>
              pending[k] == old(pending[k]) && errors[k] == old(errors[k])
    ensures t != Some(TypeDisk) ==> errors[index] == old(errors[index])
  {
    out := groups;
    if t.None? {
      return;
    }
    match SlotOf(isEnd, t.value)
    case Some(s) =>
      out := groups[s := Group(groups[s].keys + [key], groups[s].indices + [index])];
      pending[index] := pending[index] + 1;
    case None =>
      errors[index] := Some(InvalidParams);
  }

  /** Books the replies to one group's call. */
  method ProcessGroup(group: Group, replies: seq<Option<ErrorCode>>,
                      pending: array<nat>, errors: array<Option<ErrorCode>>)
    requires pending.Length == errors.Length
    requires forall k :: 0 <= k < |group.indices| ==> group.indices[k] < pending.Length
    requires forall j, k :: 0 <= j < k < |group.indices| ==> group.indices[j] < group.indices[k]
    modifies pending, errors
    ensures forall k :: 0 <= k < |group.indices| ==>
              var i := group.indices[k];
              && pending[i] == (if old(pending[i]) > 0 then old(pending[i]) - 1 else 0)
              && errors[i] == (if |replies| != |group.indices| then Some(RpcFail)
                               else if replies[k].Some? then replies[k] else old(errors[i]))
    ensures forall i :: 0 <= i < pending.Length && i !in group.indices ==>
              pending[i] == old(pending[i]) && errors[i] == old(errors[i])
  {
    for k := 0 to |group.indices|
      invariant forall j :: 0 <= j < k ==>
                  var i := group.indices[j];
                  && pending[i] == (if old(pending[i]) > 0 then old(pending[i]) - 1 else 0)
                  && errors[i] == (if |replies| != |group.indices| then Some(RpcFail)
                                   else if replies[j].Some? then replies[j] else old(errors[i]))
      invariant forall i :: 0 <= i < pending.Length && i !in group.indices[..k] ==>
                  pending[i] == old(pending[i]) && errors[i] == old(errors[i])
    {
      var i := group.indices[k];
      assert i !in group.indices[..k];
      if |replies| != |group.indices| {
        errors[i] := Some(RpcFail);
      } else if replies[k].Some? {
        errors[i] := replies[k];
      }
      if pending[i] > 0 {
        pending[i] := pending[i] - 1;
      }
    }
    assert group.indices[..|group.indices|] == group.indices;
  }

  /** The same, in terms of the plans: what the call of group s leaves for every operation. */
  method CallGroup(s: nat, group: Group, rpc: GroupReplies, pending: array<nat>, errors: array<Option<ErrorCode>>,
                   ghost plans: seq<Decision>)
    requires s < SLOTS && pending.Length == errors.Length == |plans|
    requires group.indices == Members(plans, s, |plans|)
    requires forall k :: 0 <= k < |plans| ==>
               pending[k] == CallsLeft(plans[k], s) && errors[k] == ErrorAfter(plans, rpc, s, k)
    modifies pending, errors
    ensures forall k :: 0 <= k < |plans| ==>
              pending[k] == CallsLeft(plans[k], s + 1) && errors[k] == ErrorAfter(plans, rpc, s + 1, k)
  {
    var members := group.indices;
    MembersExact(plans, s, |plans|);
    forall j | 0 <= j < |members| ensures members[j] < |plans| {
      assert members[j] in members;
    }
    ProcessGroup(group, rpc(s), pending, errors);
    forall k | 0 <= k < |plans|
      ensures pending[k] == CallsLeft(plans[k], s + 1) && errors[k] == ErrorAfter(plans, rpc, s + 1, k)
    {
      if InSlot(plans[k], s) {
        MemberRank(plans, s, k, |plans|);
        assert members[|Members(plans, s, k)|] == k;
      } else {
        assert k !in members;
      }
    }
  }

  /** The calls for the first s groups: one per group that has members, over all its members in order. */
  function CallsUpTo(plans: seq<Decision>, s: nat): seq<(nat, seq<nat>)> {
    if s == 0 then []
    else CallsUpTo(plans, s - 1) +
         if Members(plans, s - 1, |plans|) == [] then [] else [(s - 1, Members(plans, s - 1, |plans|))]
  }

  ghost predicate Matches(calls: seq<BatchCall>, spec: seq<(nat, seq<nat>)>, keys: seq<string>) {
    && |calls| == |spec|
    && forall j :: 0 <= j < |calls| ==>
         calls[j].slot == spec[j].0 && calls[j].group.indices == spec[j].1 && Parallel(calls[j].group, keys)
  }

  ghost function PlansOf(ops: seq<PutOp>, mode: Mode): seq<Decision> {
    seq(|ops|, i requires 0 <= i < |ops| => Plan(ops[i], mode))
  }

  ghost function KeysOf(ops: seq<PutOp>): seq<string> {
    seq(|ops|, i requires 0 <= i < |ops| => ops[i].key)
  }

  lemma {:induction false} MembersPrefix(plans: seq<Decision>, d: Decision, s: nat, n: nat)
    requires n <= |plans|
    ensures Members(plans + [d], s, n) == Members(plans, s, n)
  {
    if n > 0 { MembersPrefix(plans, d, s, n - 1); }
  }

  /** The first loop of finalize: sorts every operation into its groups. */
  method PlanGroups(ops: array<PutOp>, mode: Mode, pending: array<nat>, errors: array<Option<ErrorCode>>)
    returns (plans: seq<Decision>, groups: seq<Group>)
    requires pending.Length == errors.Length == ops.Length
    requires forall k :: 0 <= k < ops.Length ==> pending[k] == 0 && errors[k] == None
    modifies ops, pending, errors
    ensures plans == PlansOf(old(ops[..]), mode)
    ensures |groups| == SLOTS
    ensures forall s :: 0 <= s < SLOTS ==>
              groups[s].indices == Members(plans, s, |plans|) && Parallel(groups[s], KeysOf(old(ops[..])))
    ensures forall k :: 0 <= k < ops.Length ==>
              ops[k] == Prepared(old(ops[k])) && pending[k] == CallsLeft(plans[k], 0) && errors[k] == None
  {
    ghost var keys := KeysOf(ops[..]);
    plans := [];
    groups := seq(SLOTS, _ => Group([], []));
    for i := 0 to ops.Length
      invariant |plans| == i && |groups| == SLOTS
      invariant forall k :: 0 <= k < i ==> plans[k] == Plan(old(ops[k]), mode)
      invariant forall s :: 0 <= s < SLOTS ==> groups[s].indices == Members(plans, s, i) && Parallel(groups[s], keys)
      invariant forall k :: 0 <= k < i ==>
                  ops[k] == Prepared(old(ops[k])) && pending[k] == CallsLeft(plans[k], 0) && errors[k] == None
      invariant forall k :: i <= k < ops.Length ==> ops[k] == old(ops[k]) && pending[k] == 0 && errors[k] == None
    {
      var d;
      d, groups := PlanOne(ops, i, mode, groups, pending, errors, keys, plans);
      plans := plans + [d];
    }
  }

  method PlanOne(ops: array<PutOp>, i: nat, mode: Mode, groups: seq<Group>, pending: array<nat>,
                 errors: array<Option<ErrorCode>>, ghost keys: seq<string>, ghost plans: seq<Decision>)
    returns (d: Decision, out: seq<Group>)
    requires i < ops.Length == pending.Length == errors.Length == |keys| && i == |plans|
    requires pending[i] == 0 && errors[i] == None && keys[i] == ops[i].key
    requires |groups| == SLOTS
    requires forall s :: 0 <= s < SLOTS ==> groups[s].indices == Members(plans, s, i) && Parallel(groups[s], keys)
    modifies ops, pending, errors
    ensures d == Plan(old(ops[i]), mode) && ops[i] == Prepared(old(ops[i]))
    ensures pending[i] == CallsLeft(d, 0) && errors[i] == None
    ensures forall k :: 0 <= k < ops.Length && k != i ==>
              ops[k] == old(ops[k]) && pending[k] == old(pending[k]) && errors[k] == old(errors[k])
    ensures |out| == SLOTS
    ensures forall s :: 0 <= s < SLOTS ==>
              out[s].indices == Members(plans + [d], s, i + 1) && Parallel(out[s], keys)
  {
    var op := ops[i];
    d := Plan(op, mode);
    if !op.Resolved() && op.replicas == [] {
      ops[i] := op.Fail(InternalError, MasterFailed);
    }
    PlanNamesNoDisk(op, mode);
    AllCallsLeft(d);
    out := AddFinalizeAction(groups, d.end, true, op.key, i, pending, errors);
    out := AddFinalizeAction(out, d.revoke, false, op.key, i, pending, errors);
    forall s | 0 <= s < SLOTS ensures out[s].indices == Members(plans + [d], s, i + 1) && Parallel(out[s], keys) {
      assert out[s] == Grown(groups[s], d, s, op.key, i);
      GrownKeeps(groups[s], plans, d, s, op.key, keys);
    }
  }

  function Grown(g: Group, d: Decision, s: nat, key: string, i: nat): Group {
    if InSlot(d, s) then Group(g.keys + [key], g.indices + [i]) else g
  }

  lemma GrownKeeps(g: Group, plans: seq<Decision>, d: Decision, s: nat, key: string, keys: seq<string>)
    requires |plans| < |keys| && keys[|plans|] == key
    requires g.indices == Members(plans, s, |plans|) && Parallel(g, keys)
    ensures var out := Grown(g, d, s, key, |plans|);
            out.indices == Members(plans + [d], s, |plans| + 1) && Parallel(out, keys)
  {
    MembersPrefix(plans, d, s, |plans|);
  }

  /** Makes the calls of the six groups in order and books their replies. */
  method CallMaster(groups: seq<Group>, rpc: GroupReplies, pending: array<nat>, errors: array<Option<ErrorCode>>,
                    ghost keys: seq<string>, ghost plans: seq<Decision>)
    returns (calls: seq<BatchCall>)
    requires |groups| == SLOTS && pending.Length == errors.Length == |plans|
    requires forall s :: 0 <= s < SLOTS ==> groups[s].indices == Members(plans, s, |plans|) && Parallel(groups[s], keys)
    requires forall k :: 0 <= k < |plans| ==> pending[k] == CallsLeft(plans[k], 0) && errors[k] == None
    modifies pending, errors
    ensures Matches(calls, CallsUpTo(plans, SLOTS), keys)
    ensures forall k :: 0 <= k < |plans| ==> pending[k] == 0 && errors[k] == ErrorAfter(plans, rpc, SLOTS, k)
  {
    calls := [];
    for s := 0 to SLOTS
      invariant Matches(calls, CallsUpTo(plans, s), keys)
      invariant forall k :: 0 <= k < |plans| ==>
                  pending[k] == CallsLeft(plans[k], s) && errors[k] == ErrorAfter(plans, rpc, s, k)
    {
      if groups[s].keys != [] {
        calls := calls + [BatchCall(s, groups[s])];
        CallGroup(s, groups[s], rpc, pending, errors, plans);
      } else {
        EmptyGroupStep(plans, rpc, s);
      }
    }
  }

  lemma EmptyGroupStep(plans: seq<Decision>, rpc: GroupReplies, s: nat)
    requires s < SLOTS && Members(plans, s, |plans|) == []
    ensures forall k :: 0 <= k < |plans| ==>
              CallsLeft(plans[k], s + 1) == CallsLeft(plans[k], s) &&
              ErrorAfter(plans, rpc, s + 1, k) == ErrorAfter(plans, rpc, s, k)
  {
    MembersExact(plans, s, |plans|);
    forall k | 0 <= k < |plans| ensures !InSlot(plans[k], s) {
      assert k !in Members(plans, s, |plans|);
    }
  }

  /**
   Finalizes all operations: one call per non-empty group; afterwards every operation is terminal
   and no finalize action is outstanding.
   */
  method FinalizeBatchPut(ops: array<PutOp>, mode: Mode, rpc: GroupReplies)
    returns (calls: seq<BatchCall>, outstanding: seq<nat>)
    modifies ops
    ensures var plans := PlansOf(old(ops[..]), mode);
            && Matches(calls, CallsUpTo(plans, SLOTS), KeysOf(old(ops[..])))
            && forall i :: 0 <= i < ops.Length ==>
                 ops[i] == Settled(Prepared(old(ops[i])), plans[i], ErrorAfter(plans, rpc, SLOTS, i))
    ensures forall i :: 0 <= i < ops.Length ==> ops[i].Resolved()
    ensures |outstanding| == ops.Length && forall i :: 0 <= i < ops.Length ==> outstanding[i] == 0
  {
    var pending := new nat[ops.Length](_ => 0);
    var errors := new Option<ErrorCode>[ops.Length](_ => None);
    var plans, groups := PlanGroups(ops, mode, pending, errors);
    calls := CallMaster(groups, rpc, pending, errors, KeysOf(old(ops[..])), plans);
    Settle(ops, plans, pending, errors);
    outstanding := pending[..];
  }

  /** The last loop of finalize. */
  method Settle(ops: array<PutOp>, plans: seq<Decision>, pending: array<nat>, errors: array<Option<ErrorCode>>)
    requires ops.Length == |plans| == pending.Length == errors.Length
    modifies ops
    ensures forall k :: 0 <= k < ops.Length ==> ops[k].Resolved()
    ensures forall k :: 0 <= k < ops.Length && pending[k] == 0 ==> ops[k] == Settled(old(ops[k]), plans[k], errors[k])
  {
    for i := 0 to ops.Length
      invariant forall k :: 0 <= k < i ==> ops[k].Resolved()
      invariant forall k :: 0 <= k < i && pending[k] == 0 ==> ops[k] == Settled(old(ops[k]), plans[k], errors[k])
      invariant forall k :: i <= k < ops.Length ==> ops[k] == old(ops[k])
    {
      var op := ops[i];
      if op.Resolved() {
      } else if errors[i].Some? || pending[i] != 0 {
        if !plans[i].success && plans[i].error != NoError {
          ops[i] := op.Fail(plans[i].error, TransferFailed);
        } else if errors[i].Some? {
          ops[i] := op.Fail(errors[i].value, FinalizeFailed);
        } else {
          ops[i] := op.Fail(InternalError, FinalizeFailed);
        }
      } else if plans[i].success {
        ops[i] := op.(state := Succeeded, result := Ok(()));
      } else {
        ops[i] := op.Fail(plans[i].error, TransferFailed);
      }
    }
  }
}
