/** What the batched put guarantees: its counters, its calls, and its agreement with `Put`. */
module PutTheorems {
  import opened Machine
  import opened Store
  import opened PutPolicy
  import opened BatchStages

  /** One operation after start, submit and wait. */
  function Pipeline(key: string, mode: Mode, c: Config, start: Start, xfer: Xfers): PutOp {
    WaitOne(SubmitOne(StartOne(NewOp(key), mode, c, start), true, xfer))
  }

  // ----- the counters after submit and wait -----

  function Outcomes(transfers: seq<PendingTransfer>, kind: Kind, good: bool, n: nat): nat
    requires n <= |transfers|
  {
    if n == 0 then 0
    else Outcomes(transfers, kind, good, n - 1) +
         if transfers[n - 1].kind == kind && (transfers[n - 1].outcome == NoError) == good then 1 else 0
  }

  function FirstBad(transfers: seq<PendingTransfer>, n: nat): ErrorCode
    requires n <= |transfers|
  {
    if n == 0 then NoError
    else if FirstBad(transfers, n - 1) != NoError then FirstBad(transfers, n - 1)
    else transfers[n - 1].outcome
  }

  lemma {:induction false} WaitAdds(s: Summary, transfers: seq<PendingTransfer>, n: nat)
    requires n <= |transfers|
    ensures var w := WaitUpTo(s, transfers, n);
            && w.allocMem == s.allocMem && w.allocNof == s.allocNof
            && w.okMem == s.okMem + Outcomes(transfers, Memory, true, n)
            && w.okNof == s.okNof + Outcomes(transfers, NofSsd, true, n)
            && w.badMem == s.badMem + Outcomes(transfers, Memory, false, n)
            && w.badNof == s.badNof + Outcomes(transfers, NofSsd, false, n)
            && w.firstError == if s.firstError != NoError then s.firstError else FirstBad(transfers, n)
  {
    if n > 0 { WaitAdds(s, transfers, n - 1); }
  }

  lemma {:induction false} OutcomesPrefix(transfers: seq<PendingTransfer>, p: PendingTransfer, n: nat)
    requires n <= |transfers|
    ensures forall kind, good :: Outcomes(transfers + [p], kind, good, n) == Outcomes(transfers, kind, good, n)
    ensures FirstBad(transfers + [p], n) == FirstBad(transfers, n)
  {
    if n > 0 { OutcomesPrefix(transfers, p, n - 1); }
  }

  predicate Missed(replicas: seq<Kind>, xfer: Xfers, j: nat)
    requires j < |replicas|
  {
    Transferred(replicas[j]) && xfer(j) == NotSubmitted
  }

  function BadOf(s: Summary, kind: Kind): nat {
    match kind
    case Memory => s.badMem
    case NofSsd => s.badNof
    case _ => 0
  }

  /** Submitting the first k writes changes the failure counters and the list of transfers only. */
  lemma {:induction false} SubmitFrame(op: PutOp, xfer: Xfers, k: nat)
    requires k <= |op.replicas| && op.transfers == [] && op.summary.firstError == NoError
    ensures var o := SubmitUpTo(op, xfer, k);
            var e := if exists j :: 0 <= j < k && Missed(op.replicas, xfer, j) then TransferFail else NoError;
            && o == op.(summary := o.summary, transfers := o.transfers)
            && o.summary == op.summary.(badMem := o.summary.badMem, badNof := o.summary.badNof, firstError := e)
  {
    if k > 0 {
      SubmitFrame(op, xfer, k - 1);
      assert Missed(op.replicas, xfer, k - 1) <==> Transferred(op.replicas[k - 1]) && xfer(k - 1).NotSubmitted?;
    }
  }

  /** Every replica among the first k is missed, or in the list with its outcome. */
  lemma {:induction false} SubmitCounts(op: PutOp, xfer: Xfers, k: nat, kind: Kind)
    requires k <= |op.replicas| && op.transfers == [] && Transferred(kind) && BadOf(op.summary, kind) == 0
    ensures var o := SubmitUpTo(op, xfer, k);
            var t, n := o.transfers, |o.transfers|;
            && Outcomes(t, kind, true, n) == CountWritten(op.replicas, xfer, kind, k)
            && Outcomes(t, kind, true, n) + Outcomes(t, kind, false, n) + BadOf(o.summary, kind) ==
                 CountKind(op.replicas, kind, k)
  {
    if k > 0 {
      SubmitCounts(op, xfer, k - 1, kind);
      var o := SubmitUpTo(op, xfer, k - 1);
      if Transferred(op.replicas[k - 1]) && xfer(k - 1).Finished? {
        OutcomesPrefix(o.transfers, PendingTransfer(op.replicas[k - 1], xfer(k - 1).error), |o.transfers|);
      }
    }
  }

  /**
   For every operation still pending after submit and wait, successes plus failures equal the
   allocated replicas, per type, and the successes are the replicas that were written.
   */
  lemma PendingCounts(key: string, mode: Mode, c: Config, start: Start, xfer: Xfers)
    requires !Pipeline(key, mode, c, start, xfer).Resolved()
    ensures start.Started? && start.replicas != []
    ensures var op, r := Pipeline(key, mode, c, start, xfer), start.replicas;
            var s := op.summary;
            && op.replicas == r && op.requested == c
            && s.allocMem == CountKind(r, Memory, |r|) && s.allocNof == CountKind(r, NofSsd, |r|)
            && s.okMem + s.badMem == s.allocMem && s.okNof + s.badNof == s.allocNof
            && s.okMem == CountWritten(r, xfer, Memory, |r|) && s.okNof == CountWritten(r, xfer, NofSsd, |r|)
            && HasExpectedAllocation(mode, c, s)
  {
    var op := StartOne(NewOp(key), mode, c, start);
    var r := start.replicas;
    AllocationCounts(r, |r|);
    SubmitFrame(op, xfer, |r|);
    SubmitCounts(op, xfer, |r|, Memory);
    SubmitCounts(op, xfer, |r|, NofSsd);
    var o := SubmitUpTo(op, xfer, |r|);
    WaitAdds(o.summary, o.transfers, |o.transfers|);
  }

  /** The batch and the single put count the same; only the first error may differ. */
  lemma CountsAgree(key: string, mode: Mode, c: Config, start: Start, xfer: Xfers)
    requires !Pipeline(key, mode, c, start, xfer).Resolved()
    ensures var s, p := Pipeline(key, mode, c, start, xfer).summary, SerialSummary(start.replicas, xfer);
            s.(firstError := NoError) == p.(firstError := NoError)
  {
    PendingCounts(key, mode, c, start, xfer);
    SerialCounts(start.replicas, xfer, |start.replicas|);
  }

  // ----- agreement with a single put -----

  /** The latest error of the operation's own calls. */
  function CallError(d: Decision, f: FinalReplies): Option<ErrorCode> {
    if d.revoke.Some? && f.revoke.Some? then f.revoke
    else if d.end.Some? then f.end
    else None
  }

  function PlannedCalls(d: Decision): seq<MasterCall> {
    (if d.end.Some? then [PutEnd(d.end.value)] else []) + (if d.revoke.Some? then [PutRevoke(d.revoke.value)] else [])
  }

  /** CollectResults: an object that already exists counts as stored. */
  function Collect(v: Verdict): Verdict {
    if v == Err(ObjectAlreadyExists) then Ok(()) else v
  }

  /** The operation's result before it is collected. */
  function RawResult(key: string, mode: Mode, c: Config, start: Start, xfer: Xfers, f: FinalReplies): Verdict {
    var op := Pipeline(key, mode, c, start, xfer);
    Settled(Prepared(op), Plan(op, mode), CallError(Plan(op, mode), f)).result
  }

  /** A flexible policy that asks for no NoF replica, met by NoF replicas only: the batch refuses, Put accepts. */
  predicate PolicyGap(mode: Mode, c: Config, start: Start, xfer: Xfers) {
    && start.Started? && Flexible(mode, c) && c.nofReplicaNum == 0
    && CountKind(start.replicas, Memory, |start.replicas|) == 0
    && CountWritten(start.replicas, xfer, NofSsd, |start.replicas|) > 0
  }

  lemma RefusedAtStart(key: string, mode: Mode, c: Config, replicas: seq<Kind>, xfer: Xfers)
    requires !HasExpectedAllocation(mode, c, AllocSummary(replicas))
    requires !PolicyGap(mode, c, Started(replicas), xfer)
    ensures var op := Pipeline(key, mode, c, Started(replicas), xfer);
            && op.state == MasterFailed && op.replicas == replicas && op.result == Err(NoAvailableHandle)
            && Decide(mode, c, SerialSummary(replicas, xfer)).end == None
            && Decide(mode, c, SerialSummary(replicas, xfer)).revoke == Some(TypeAll)
  {
    AllocationCounts(replicas, |replicas|);
    SerialCounts(replicas, xfer, |replicas|);
  }

  lemma StartedStaysPending(key: string, mode: Mode, c: Config, replicas: seq<Kind>, xfer: Xfers)
    requires HasExpectedAllocation(mode, c, AllocSummary(replicas))
    ensures replicas != [] && !Pipeline(key, mode, c, Started(replicas), xfer).Resolved()
  {
    AllocationCounts(replicas, |replicas|);
    var op := StartOne(NewOp(key), mode, c, Started(replicas));
    SubmitFrame(op, xfer, |replicas|);
  }

  /**
   Per key, the batch plans the same End and Revoke calls as a single put makes, except in three cases:
   the put's End fails (it then sends no Revoke), the master granted no replica at all (the put revokes
   everything, the batch calls nothing), and the policy gap (the batch revokes everything, the put ends
   the NoF replicas and revokes the memory replicas).
   */
  lemma CallsAgreeWithPut(key: string, mode: Mode, c: Config, start: Start, xfer: Xfers, f: FinalReplies)
    ensures var d, put := Plan(Pipeline(key, mode, c, start, xfer), mode), PutSpec(mode, c, start, xfer, f);
            if start == Started([]) then PlannedCalls(d) == [] && put.0 == [PutRevoke(TypeAll)]
            else if PolicyGap(mode, c, start, xfer) then
              && PlannedCalls(d) == [PutRevoke(TypeAll)]
              && put.0 == [PutEnd(TypeNof)] + if f.end.Some? then [] else [PutRevoke(TypeMemory)]
            else if d.end.Some? && f.end.Some? then put.0 == [PutEnd(d.end.value)]
            else put.0 == PlannedCalls(d)
  {
    if start.Started? {
      var replicas := start.replicas;
      if PolicyGap(mode, c, start, xfer) {
        AllocationCounts(replicas, |replicas|);
        SerialCounts(replicas, xfer, |replicas|);
      } else if !HasExpectedAllocation(mode, c, AllocSummary(replicas)) {
        RefusedAtStart(key, mode, c, replicas, xfer);
      } else {
        StartedStaysPending(key, mode, c, replicas, xfer);
        PendingCounts(key, mode, c, start, xfer);
        CountsAgree(key, mode, c, start, xfer);
      }
    }
  }

  // ----- which error is reported -----

  /** Without a failed submission the batch meets the failures in replica order too. */
  lemma {:induction false} BatchFirstBad(op: PutOp, xfer: Xfers, k: nat, j: nat)
    requires j < k <= |op.replicas| && op.transfers == [] && FirstFailure(op.replicas, xfer, j)
    requires forall i :: 0 <= i < k ==> !Missed(op.replicas, xfer, i)
    ensures var o := SubmitUpTo(op, xfer, k); FirstBad(o.transfers, |o.transfers|) == WriteResult(xfer(j))
    decreases k
  {
    var o := SubmitUpTo(op, xfer, k - 1);
    assert !Missed(op.replicas, xfer, k - 1);
    if Transferred(op.replicas[k - 1]) {
      OutcomesPrefix(o.transfers, PendingTransfer(op.replicas[k - 1], xfer(k - 1).error), |o.transfers|);
    }
    if k - 1 > j { BatchFirstBad(op, xfer, k - 1, j); } else { NoBadBefore(op, xfer, j); }
  }

  lemma {:induction false} NoBadBefore(op: PutOp, xfer: Xfers, k: nat)
    requires k <= |op.replicas| && op.transfers == []
    requires forall i :: 0 <= i < k && Transferred(op.replicas[i]) ==> Written(xfer(i))
    ensures var o := SubmitUpTo(op, xfer, k); FirstBad(o.transfers, |o.transfers|) == NoError
  {
    if k > 0 {
      NoBadBefore(op, xfer, k - 1);
      var o := SubmitUpTo(op, xfer, k - 1);
      if Transferred(op.replicas[k - 1]) {
        OutcomesPrefix(o.transfers, PendingTransfer(op.replicas[k - 1], xfer(k - 1).error), |o.transfers|);
      }
    }
  }

  /**
   The batch records failed submissions before it waits for any transfer. Its first error therefore
   equals the single put's exactly when no submission failed or the first failing write in replica
   order reports TRANSFER_FAIL.
   */
  lemma FirstErrorsAgreeIff(key: string, mode: Mode, c: Config, start: Start, xfer: Xfers, j: nat)
    requires !Pipeline(key, mode, c, start, xfer).Resolved()
    requires start.Started? && j < |start.replicas| && FirstFailure(start.replicas, xfer, j)
    ensures var r := start.replicas;
            Pipeline(key, mode, c, start, xfer).summary.firstError == SerialSummary(r, xfer).firstError <==>
              (forall i :: 0 <= i < |r| ==> !Missed(r, xfer, i)) || WriteResult(xfer(j)) == TransferFail
  {
    var r := start.replicas;
    var op := StartOne(NewOp(key), mode, c, start);
    SerialFirstError(r, xfer, |r|, j);
    AllocationCounts(r, |r|);
    SubmitFrame(op, xfer, |r|);
    var o := SubmitUpTo(op, xfer, |r|);
    WaitAdds(o.summary, o.transfers, |o.transfers|);
    if forall i :: 0 <= i < |r| ==> !Missed(r, xfer, i) {
      BatchFirstBad(op, xfer, |r|, j);
    }
  }

  /** The error the batch records first: failed submissions come before every transfer. */
  ghost function BatchError(replicas: seq<Kind>, xfer: Xfers): ErrorCode {
    if exists j :: 0 <= j < |replicas| && Missed(replicas, xfer, j) then TransferFail
        else SerialSummary(replicas, xfer).firstError
  }

  lemma FirstErrorIs(key: string, mode: Mode, c: Config, start: Start, xfer: Xfers)
    requires !Pipeline(key, mode, c, start, xfer).Resolved()
    ensures start.Started? && Pipeline(key, mode, c, start, xfer).summary.firstError == BatchError(start.replicas, xfer)
  {
    PendingCounts(key, mode, c, start, xfer);
    var r := start.replicas;
    var op := StartOne(NewOp(key), mode, c, start);
    AllocationCounts(r, |r|);
    SubmitFrame(op, xfer, |r|);
    var o := SubmitUpTo(op, xfer, |r|);
    WaitAdds(o.summary, o.transfers, |o.transfers|);
    if forall i :: 0 <= i < |r| ==> !Missed(r, xfer, i) {
      var first := FindFirstFailure(r, xfer, |r|);
      if first.Some? {
        BatchFirstBad(op, xfer, |r|, first.value);
        SerialFirstError(r, xfer, |r|, first.value);
      } else {
        NoBadBefore(op, xfer, |r|);
        NoFailureBefore(r, xfer, |r|);
      }
    }
  }

  /**
   The last answer that decides a started operation is OBJECT_ALREADY_EXISTS: the answer to its latest
   finalize call if the transfers sufficed, else the first transfer error.
   */
  ghost predicate ReportsExisting(mode: Mode, c: Config, start: Start, xfer: Xfers, f: FinalReplies) {
    && start.Started? && HasExpectedAllocation(mode, c, AllocSummary(start.replicas))
    && var d := Decide(mode, c, SerialSummary(start.replicas, xfer));
       if d.success then CallError(d, f) == Some(ObjectAlreadyExists)
       else BatchError(start.replicas, xfer) == ObjectAlreadyExists
  }

  lemma ExistingIff(key: string, mode: Mode, c: Config, start: Start, xfer: Xfers, f: FinalReplies)
    ensures ReportsExisting(mode, c, start, xfer, f) <==>
            start.Started? && RawResult(key, mode, c, start, xfer, f) == Err(ObjectAlreadyExists)
  {
    if start.Started? {
      AllocationCounts(start.replicas, |start.replicas|);
      if HasExpectedAllocation(mode, c, AllocSummary(start.replicas)) {
        StartedStaysPending(key, mode, c, start.replicas, xfer);
        PendingCounts(key, mode, c, start, xfer);
        CountsAgree(key, mode, c, start, xfer);
        FirstErrorIs(key, mode, c, start, xfer);
      }
    }
  }

  /**
   Per key, the batch reaches the same verdict as a single put with the same replicas, transfer
   outcomes and finalize replies, whatever those are, except in exactly two cases: a started put
   that fails with OBJECT_ALREADY_EXISTS, which the batch collects as stored, and the policy gap.
   */
  lemma BatchAgreesWithPut(key: string, mode: Mode, c: Config, start: Start, xfer: Xfers, f: FinalReplies)
    ensures var raw, put := RawResult(key, mode, c, start, xfer, f), PutSpec(mode, c, start, xfer, f);
            Collect(raw).Ok? == put.1.Ok? <==>
              !ReportsExisting(mode, c, start, xfer, f) &&
              !(PolicyGap(mode, c, start, xfer) && f.end.None? && f.revoke.None?)
  {
    ExistingIff(key, mode, c, start, xfer, f);
    if start.Started? {
      var op := Pipeline(key, mode, c, start, xfer);
      var replicas := start.replicas;
      AllocationCounts(replicas, |replicas|);
      SerialCounts(replicas, xfer, |replicas|);
      if !HasExpectedAllocation(mode, c, AllocSummary(replicas)) {
        if !PolicyGap(mode, c, start, xfer) { RefusedAtStart(key, mode, c, replicas, xfer); }
      } else {
        StartedStaysPending(key, mode, c, replicas, xfer);
        PendingCounts(key, mode, c, start, xfer);
        CountsAgree(key, mode, c, start, xfer);
      }
    }
  }

  /** Every write succeeds. */
  const GOOD: Xfers := _ => Finished(NoError)

  /**
   One written memory replica whose End is answered OBJECT_ALREADY_EXISTS: the put fails, the batch
   reports success.
   */
  lemma ExistingExample(key: string, mode: Mode)
    ensures var c, start, f := Config(1, 0), Started([Memory]), FinalReplies(Some(ObjectAlreadyExists), None);
            && PutSpec(mode, c, start, GOOD, f).1 == Err(ObjectAlreadyExists)
            && Collect(RawResult(key, mode, c, start, GOOD, f)) == Ok(())
  {
    var c, replicas, f := Config(1, 0), [Memory], FinalReplies(Some(ObjectAlreadyExists), None);
    assert AllocateUpTo(replicas, 1) == AllocateUpTo(replicas, 0).Allocated(Memory);
    assert SerialUpTo(replicas, GOOD, 1) == SerialUpTo(replicas, GOOD, 0).Outcome(Memory, NoError);
    ExistingIff(key, mode, c, Started(replicas), GOOD, f);
  }

  /** A flexible policy without NoF replicas that is granted a NoF replica only: the put succeeds, the batch refuses. */
  lemma PolicyGapExample(key: string)
    ensures var mode, c, start, f := (_: nat, _: nat) => true, Config(1, 0), Started([NofSsd]),
            FinalReplies(None, None);
            && PutSpec(mode, c, start, GOOD, f).1 == Ok(())
            && Collect(RawResult(key, mode, c, start, GOOD, f)) == Err(NoAvailableHandle)
  {
    var replicas := [NofSsd];
    assert AllocateUpTo(replicas, 1) == AllocateUpTo(replicas, 0).Allocated(NofSsd);
    assert SerialUpTo(replicas, GOOD, 1) == SerialUpTo(replicas, GOOD, 0).Outcome(NofSsd, NoError);
  }

  // ----- what success means for the data -----

  ghost predicate AllWritten(replicas: seq<Kind>, xfer: Xfers, t: ReplicaType) {
    forall j :: 0 <= j < |replicas| && Transferred(replicas[j]) && Covers(t, replicas[j]) ==> Written(xfer(j))
  }

  /** In a reliable mode a successful operation has every memory and NoF replica written. */
  lemma SuccessMeansWritten(key: string, mode: Mode, c: Config, start: Start, xfer: Xfers, err: Option<ErrorCode>)
    requires !Flexible(mode, c)
    requires var op := Pipeline(key, mode, c, start, xfer);
             Settled(Prepared(op), Plan(op, mode), err).state == Succeeded
    ensures start.Started? && AllWritten(start.replicas, xfer, TypeAll)
  {
    var op := Pipeline(key, mode, c, start, xfer);
    assert !op.Resolved() by { NeverSucceededEarly(key, mode, c, start, xfer); }
    PendingCounts(key, mode, c, start, xfer);
    AllWrittenIff(start.replicas, xfer, Memory, |start.replicas|);
    AllWrittenIff(start.replicas, xfer, NofSsd, |start.replicas|);
  }

  lemma NeverSucceededEarly(key: string, mode: Mode, c: Config, start: Start, xfer: Xfers)
    ensures Pipeline(key, mode, c, start, xfer).state != Succeeded
  {
    if start.Started? && HasExpectedAllocation(mode, c, AllocSummary(start.replicas)) {
      StartedStaysPending(key, mode, c, start.replicas, xfer);
    }
  }

  /** Every replica of a type the operation ends was written. */
  ghost predicate EndsOnlyWritten(mode: Mode, c: Config, replicas: seq<Kind>, xfer: Xfers) {
    var d := Plan(Pipeline("", mode, c, Started(replicas), xfer), mode);
    d.end.Some? ==> AllWritten(replicas, xfer, d.end.value)
  }

  lemma {:induction false} KindOccurs(replicas: seq<Kind>, kind: Kind, k: nat, want: nat) returns (j: nat)
    requires k <= |replicas| && 0 < want <= CountKind(replicas, kind, k)
    ensures j < k && replicas[j] == kind && CountKind(replicas, kind, j) == want - 1
  {
    if CountKind(replicas, kind, k - 1) >= want {
      j := KindOccurs(replicas, kind, k - 1, want);
    } else {
      j := k - 1;
    }
  }

  lemma {:induction false} WrittenOccurs(replicas: seq<Kind>, xfer: Xfers, kind: Kind, k: nat, j: nat)
    requires j < k <= |replicas| && replicas[j] == kind && Written(xfer(j))
    ensures CountWritten(replicas, xfer, kind, k) > 0
  {
    if k - 1 > j { WrittenOccurs(replicas, xfer, kind, k - 1, j); }
  }

  lemma SingleReplicasSafe(mode: Mode, c: Config, replicas: seq<Kind>, xfer: Xfers)
    requires Flexible(mode, c) && HasExpectedAllocation(mode, c, AllocSummary(replicas))
    requires CountKind(replicas, Memory, |replicas|) <= 1 && CountKind(replicas, NofSsd, |replicas|) <= 1
    ensures EndsOnlyWritten(mode, c, replicas, xfer)
  {
    StartedStaysPending("", mode, c, replicas, xfer);
    PendingCounts("", mode, c, Started(replicas), xfer);
    AllWrittenIff(replicas, xfer, Memory, |replicas|);
    AllWrittenIff(replicas, xfer, NofSsd, |replicas|);
  }

  lemma TwoReplicasUnsafe(mode: Mode, c: Config, replicas: seq<Kind>, kind: Kind, a: nat, b: nat, xfer: Xfers)
    requires Flexible(mode, c) && HasExpectedAllocation(mode, c, AllocSummary(replicas))
    requires a < |replicas| && b < |replicas| && replicas[a] == replicas[b] == kind && Transferred(kind)
    requires Written(xfer(a)) && !Written(xfer(b))
    ensures !EndsOnlyWritten(mode, c, replicas, xfer)
  {
    StartedStaysPending("", mode, c, replicas, xfer);
    PendingCounts("", mode, c, Started(replicas), xfer);
    WrittenOccurs(replicas, xfer, kind, |replicas|, a);
  }

  /**
   In the flexible mode an End vouches for a whole type as soon as one of its replicas is written.
   That is safe for every outcome of the transfers exactly when the master allocated at most one
   replica of each type.
   */
  lemma FlexibleEndsOnlyWrittenIff(mode: Mode, c: Config, replicas: seq<Kind>)
    requires Flexible(mode, c) && HasExpectedAllocation(mode, c, AllocSummary(replicas))
    ensures (forall xfer: Xfers :: EndsOnlyWritten(mode, c, replicas, xfer)) <==>
            CountKind(replicas, Memory, |replicas|) <= 1 && CountKind(replicas, NofSsd, |replicas|) <= 1
  {
    if CountKind(replicas, Memory, |replicas|) <= 1 && CountKind(replicas, NofSsd, |replicas|) <= 1 {
      forall xfer: Xfers ensures EndsOnlyWritten(mode, c, replicas, xfer) {
        SingleReplicasSafe(mode, c, replicas, xfer);
      }
    } else {
      var kind := if CountKind(replicas, Memory, |replicas|) > 1 then Memory else NofSsd;
      var a := KindOccurs(replicas, kind, |replicas|, 1);
      var b := KindOccurs(replicas, kind, |replicas|, 2);
      var xfer: Xfers := j => if j == a then Finished(NoError) else Finished(TransferFail);
      TwoReplicasUnsafe(mode, c, replicas, kind, a, b, xfer);
    }
  }

  // ----- the calls of the batch -----

  /** Every operation that holds replicas is finalized: its calls cover both transferred types, each once. */
  lemma PlansCover(op: PutOp, mode: Mode, k: Kind)
    requires Transferred(k) && op.replicas != [] && !op.Successful()
    ensures var d := Plan(op, mode);
            (d.end.Some? && Covers(d.end.value, k)) != (d.revoke.Some? && Covers(d.revoke.value, k))
  {
    if !op.Resolved() { DecisionPartitions(mode, op.requested, op.summary, k); }
  }

  ghost predicate Called(calls: seq<(nat, seq<nat>)>, slot: nat, i: nat) {
    exists j :: 0 <= j < |calls| && calls[j].0 == slot && i in calls[j].1
  }

  /** An operation is named in a call of the batch exactly when its plan asks for that call. */
  lemma {:induction false} CalledIffPlanned(plans: seq<Decision>, s: nat, slot: nat, i: nat)
    requires i < |plans| && slot < s
    ensures Called(CallsUpTo(plans, s), slot, i) <==> InSlot(plans[i], slot)
    decreases s
  {
    var before, now := CallsUpTo(plans, s - 1), CallsUpTo(plans, s);
    SlotsBelow(plans, s - 1);
    if slot < s - 1 {
      CalledIffPlanned(plans, s - 1, slot, i);
      CalledConcat(before, now[|before|..], slot, i);
      assert now == before + now[|before|..];
    } else {
      MembersExact(plans, slot, |plans|);
      CalledConcat(before, now[|before|..], slot, i);
      assert now == before + now[|before|..];
      if InSlot(plans[i], slot) { assert now[|before|..][0] == (slot, Members(plans, slot, |plans|)); }
    }
  }

  lemma CalledConcat(a: seq<(nat, seq<nat>)>, b: seq<(nat, seq<nat>)>, slot: nat, i: nat)
    ensures Called(a + b, slot, i) <==> Called(a, slot, i) || Called(b, slot, i)
  {
    if Called(a, slot, i) {
      var j :| 0 <= j < |a| && a[j].0 == slot && i in a[j].1;
      assert (a + b)[j] == a[j];
    }
    if Called(b, slot, i) {
      var j :| 0 <= j < |b| && b[j].0 == slot && i in b[j].1;
      assert (a + b)[|a| + j] == b[j];
    }
  }

  lemma {:induction false} SlotsBelow(plans: seq<Decision>, s: nat)
    ensures forall j :: 0 <= j < |CallsUpTo(plans, s)| ==> CallsUpTo(plans, s)[j].0 < s
  {
    if s > 0 { SlotsBelow(plans, s - 1); }
  }

  // ----- the whole batch -----

  function SlotReply(plans: seq<Decision>, rpc: GroupReplies, isEnd: bool, t: Option<ReplicaType>,
                     i: nat): Option<ErrorCode>
    requires i < |plans|
  {
    if t.None? || SlotOf(isEnd, t.value).None? then None else SlotError(plans, rpc, SlotOf(isEnd, t.value).value, i)
  }

  /** The replies operation i gets to its own End and Revoke, out of the replies to the group calls. */
  function RepliesFor(plans: seq<Decision>, rpc: GroupReplies, i: nat): FinalReplies
    requires i < |plans|
  {
    FinalReplies(SlotReply(plans, rpc, true, plans[i].end, i), SlotReply(plans, rpc, false, plans[i].revoke, i))
  }

  /** The error booked for an operation after all six calls is the latest error of its own calls. */
  lemma BookedErrorIsOwn(plans: seq<Decision>, rpc: GroupReplies, i: nat)
    requires i < |plans| && plans[i].end != Some(TypeDisk) && plans[i].revoke != Some(TypeDisk)
    ensures ErrorAfter(plans, rpc, SLOTS, i) == CallError(plans[i], RepliesFor(plans, rpc, i))
  {
    var d, f := plans[i], RepliesFor(plans, rpc, i);
    assert ErrorAfter(plans, rpc, 1, i) == if d.end == Some(TypeAll) then f.end else None;
    assert ErrorAfter(plans, rpc, 2, i) == if d.end == Some(TypeAll) || d.end == Some(TypeMemory) then f.end else None;
    assert ErrorAfter(plans, rpc, 3, i) == if d.end.Some? then f.end else None;
    var ended := ErrorAfter(plans, rpc, 3, i);
    assert ErrorAfter(plans, rpc, 4, i) == if d.revoke == Some(TypeAll) && f.revoke.Some? then f.revoke else ended;
    assert ErrorAfter(plans, rpc, 5, i) ==
             if (d.revoke == Some(TypeAll) || d.revoke == Some(TypeMemory)) && f.revoke.Some? then f.revoke else ended;
  }

  /**
   The result the batch returns for key i and the verdict of a single put of that key, given the
   replies the key's own calls get, are both successes or both failures outside the two exceptions.
   */
  lemma EveryKeyAgrees(keys: seq<string>, mode: Mode, c: Config, responses: seq<Start>, xfers: nat -> Xfers,
                       rpc: GroupReplies, i: nat)
    requires i < |keys| == |responses|
    ensures var ops := Piped(keys, mode, c, responses, xfers);
            var plans := PlansOf(ops, mode);
            var raw := Settled(Prepared(ops[i]), plans[i], ErrorAfter(plans, rpc, SLOTS, i)).result;
            var f := RepliesFor(plans, rpc, i);
            Collect(raw).Ok? == PutSpec(mode, c, responses[i], xfers(i), f).1.Ok? <==>
              !ReportsExisting(mode, c, responses[i], xfers(i), f) &&
              !(PolicyGap(mode, c, responses[i], xfers(i)) && f.end.None? && f.revoke.None?)
  {
    var ops := Piped(keys, mode, c, responses, xfers);
    var plans := PlansOf(ops, mode);
    PlanNamesNoDisk(ops[i], mode);
    BookedErrorIsOwn(plans, rpc, i);
    BatchAgreesWithPut(keys[i], mode, c, responses[i], xfers(i), RepliesFor(plans, rpc, i));
  }

  // ----- what is stored -----

  /** Some write could not be submitted, or else whatever failed first did so with this error. */
  ghost predicate BatchFailsWith(r: seq<Kind>, xfer: Xfers, e: ErrorCode) {
    if exists j :: 0 <= j < |r| && (r[j] == Memory || r[j] == NofSsd) && xfer(j) == NotSubmitted then e == TransferFail
    else forall j :: 0 <= j < |r| && FirstFailure(r, xfer, j) && xfer(j).Finished? ==> e == xfer(j).error
  }

  lemma BatchErrorMeans(r: seq<Kind>, xfer: Xfers)
    ensures BatchFailsWith(r, xfer, BatchError(r, xfer))
  {
    assert (exists j :: 0 <= j < |r| && (r[j] == Memory || r[j] == NofSsd) && xfer(j) == NotSubmitted) <==>
           (exists j :: 0 <= j < |r| && Missed(r, xfer, j)) by {
      if j :| 0 <= j < |r| && (r[j] == Memory || r[j] == NofSsd) && xfer(j) == NotSubmitted {
        assert Missed(r, xfer, j);
      }
    }
    SummaryMeans(r, xfer);
  }

  /** The plan and the result of an operation that was granted replicas and whose finalize calls are answered well. */
  lemma OperationMeans(key: string, mode: Mode, c: Config, r: seq<Kind>, xfer: Xfers)
    ensures var op := Pipeline(key, mode, c, Started(r), xfer);
            var d := Plan(op, mode);
            OutcomeIs(mode, c, r, xfer, d.end, d.revoke, Settled(Prepared(op), d, None).result)
  {
    if HasExpectedAllocation(mode, c, AllocSummary(r)) {
      PendingMeans(key, mode, c, r, xfer);
    } else {
      RefusedMeans(key, mode, c, r, xfer);
    }
  }

  /** The allocation is the one asked for exactly when the replicas say so. */
  lemma AllocationMeans(mode: Mode, c: Config, r: seq<Kind>)
    ensures HasExpectedAllocation(mode, c, AllocSummary(r)) <==>
            if c.nofReplicaNum == 0 then Memory in r
            else if mode(c.replicaNum, c.nofReplicaNum) then Memory in r || NofSsd in r
            else multiset(r)[Memory] == c.replicaNum && multiset(r)[NofSsd] == c.nofReplicaNum
  {
    AllocationCounts(r, |r|);
    CountIs(r, Memory, |r|);
    CountIs(r, NofSsd, |r|);
    assert r[..|r|] == r;
    assert Memory in r <==> multiset(r)[Memory] > 0;
    assert NofSsd in r <==> multiset(r)[NofSsd] > 0;
  }

  lemma RefusedMeans(key: string, mode: Mode, c: Config, r: seq<Kind>, xfer: Xfers)
    requires !HasExpectedAllocation(mode, c, AllocSummary(r))
    ensures var op := Pipeline(key, mode, c, Started(r), xfer);
            var d := Plan(op, mode);
            OutcomeIs(mode, c, r, xfer, d.end, d.revoke, Settled(Prepared(op), d, None).result)
  {
    AllocationMeans(mode, c, r);
  }

  lemma PendingMeans(key: string, mode: Mode, c: Config, r: seq<Kind>, xfer: Xfers)
    requires HasExpectedAllocation(mode, c, AllocSummary(r))
    ensures var op := Pipeline(key, mode, c, Started(r), xfer);
            var d := Plan(op, mode);
            OutcomeIs(mode, c, r, xfer, d.end, d.revoke, Settled(Prepared(op), d, None).result)
  {
    AllocationMeans(mode, c, r);
    SummaryMeans(r, xfer);
    StartedStaysPending(key, mode, c, r, xfer);
    PendingCounts(key, mode, c, Started(r), xfer);
    CountsAgree(key, mode, c, Started(r), xfer);
    FirstErrorIs(key, mode, c, Started(r), xfer);
    BatchErrorMeans(r, xfer);
  }

  /**
   What an operation ends and revokes, and its result, in terms of the replicas granted and the writes:
   in a reliable mode everything is ended exactly if the allocation is the one asked for and every memory
   and NoF replica was written; in the flexible mode exactly the types with a written replica are ended.
   */
  ghost predicate OutcomeIs(mode: Mode, c: Config, r: seq<Kind>, xfer: Xfers, end: Option<ReplicaType>,
                            revoke: Option<ReplicaType>, result: Verdict)
  {
    var mem := exists j :: 0 <= j < |r| && r[j] == Memory && xfer(j) == Finished(NoError);
    var nof := exists j :: 0 <= j < |r| && r[j] == NofSsd && xfer(j) == Finished(NoError);
    var written := forall j :: 0 <= j < |r| && (r[j] == Memory || r[j] == NofSsd) ==> xfer(j) == Finished(NoError);
    var flexible := mode(c.replicaNum, c.nofReplicaNum);
    var asked := if c.nofReplicaNum == 0 then Memory in r
                 else if flexible then Memory in r || NofSsd in r
                 else multiset(r)[Memory] == c.replicaNum && multiset(r)[NofSsd] == c.nofReplicaNum;
    if asked && (if flexible then mem && nof else written)
    then end == Some(TypeAll) && revoke == None && result == Ok(())
    else if asked && flexible && mem then end == Some(TypeMemory) && revoke == Some(TypeNof) && result == Ok(())
    else if asked && flexible && nof then end == Some(TypeNof) && revoke == Some(TypeMemory) && result == Ok(())
    else
      && end == None && revoke == (if r == [] then None else Some(TypeAll)) && result.Err?
      && (!asked ==> result.error == NoAvailableHandle) && (asked ==> BatchFailsWith(r, xfer, result.error))
  }

  /** The call of each kind, by its place among the six. */
  function EndSlot(t: Option<ReplicaType>): Option<nat> {
    match t
    case Some(TypeAll) => Some(0)
    case Some(TypeMemory) => Some(1)
    case Some(TypeNof) => Some(2)
    case _ => None
  }

  function RevokeSlot(t: Option<ReplicaType>): Option<nat> {
    match t
    case Some(TypeAll) => Some(3)
    case Some(TypeMemory) => Some(4)
    case Some(TypeNof) => Some(5)
    case _ => None
  }

  /** An answer that books an error turns a success into that error; a failure keeps its own. */
  lemma SettledWith(key: string, mode: Mode, c: Config, r: seq<Kind>, xfer: Xfers, err: Option<ErrorCode>)
    ensures var op := Pipeline(key, mode, c, Started(r), xfer);
            var d := Plan(op, mode);
            var raw := Settled(Prepared(op), d, None).result;
            Settled(Prepared(op), d, err).result == if raw.Ok? && err.Some? then Err(err.value) else raw
  {
    var op := Pipeline(key, mode, c, Started(r), xfer);
    if HasExpectedAllocation(mode, c, AllocSummary(r)) {
      StartedStaysPending(key, mode, c, r, xfer);
      DecisionPartitions(mode, op.requested, op.summary, Memory);
    }
  }

  /**
   In a batch of any size, a key that was granted replicas ends up as its replicas and writes say, unless
   one of its own calls books an error, and is named in exactly the calls that end and revoke them.
   */
  lemma EveryKeyStored(keys: seq<string>, mode: Mode, c: Config, responses: seq<Start>, xfers: nat -> Xfers,
                       rpc: GroupReplies, i: nat)
    requires i < |keys| == |responses| && responses[i].Started?
    ensures var ops := Piped(keys, mode, c, responses, xfers);
            var plans := PlansOf(ops, mode);
            var raw, err := Settled(Prepared(ops[i]), plans[i], None).result, ErrorAfter(plans, rpc, SLOTS, i);
            && Settled(Prepared(ops[i]), plans[i], err).result == (if raw.Ok? && err.Some? then Err(err.value) else raw)
            && OutcomeIs(mode, c, responses[i].replicas, xfers(i), plans[i].end, plans[i].revoke, raw)
            && forall slot: nat | slot < SLOTS ::
                 Called(CallsUpTo(plans, SLOTS), slot, i) <==>
                 EndSlot(plans[i].end) == Some(slot) || RevokeSlot(plans[i].revoke) == Some(slot)
  {
    var plans := PlansOf(Piped(keys, mode, c, responses, xfers), mode);
    OperationMeans(keys[i], mode, c, responses[i].replicas, xfers(i));
    SettledWith(keys[i], mode, c, responses[i].replicas, xfers(i), ErrorAfter(plans, rpc, SLOTS, i));
    forall slot: nat | slot < SLOTS
      ensures Called(CallsUpTo(plans, SLOTS), slot, i) <==>
              EndSlot(plans[i].end) == Some(slot) || RevokeSlot(plans[i].revoke) == Some(slot)
    {
      CalledIffPlanned(plans, SLOTS, slot, i);
    }
  }

  method CollectResults(ops: array<PutOp>) returns (results: seq<Verdict>)
    ensures |results| == ops.Length && forall i :: 0 <= i < ops.Length ==> results[i] == Collect(ops[i].result)
  {
    results := [];
    for i := 0 to ops.Length
      invariant |results| == i && forall k :: 0 <= k < i ==> results[k] == Collect(ops[k].result)
    {
      if ops[i].result.Err? && ops[i].result.error == ObjectAlreadyExists {
        results := results + [Ok(())];
      } else {
        results := results + [ops[i].result];
      }
    }
  }

  ghost function Piped(keys: seq<string>, mode: Mode, c: Config, responses: seq<Start>, xfers: nat -> Xfers): seq<PutOp>
    requires |responses| == |keys|
  {
    seq(|keys|, i requires 0 <= i < |keys| => Pipeline(keys[i], mode, c, responses[i], xfers(i)))
  }

  lemma PipelineKeepsKeys(keys: seq<string>, mode: Mode, c: Config, responses: seq<Start>, xfers: nat -> Xfers)
    requires |responses| == |keys|
    ensures KeysOf(Piped(keys, mode, c, responses, xfers)) == keys
  {
    forall i | 0 <= i < |keys| ensures Pipeline(keys[i], mode, c, responses[i], xfers(i)).key == keys[i] {
      var op := StartOne(NewOp(keys[i]), mode, c, responses[i]);
      if !op.Resolved() { SubmitKeepsKey(op, xfers(i), |op.replicas|); }
    }
  }

  lemma {:induction false} SubmitKeepsKey(op: PutOp, xfer: Xfers, k: nat)
    requires k <= |op.replicas|
    ensures SubmitUpTo(op, xfer, k).key == op.key
  {
    if k > 0 { SubmitKeepsKey(op, xfer, k - 1); }
  }

  /** The master was asked for key i and granted replicas. */
  predicate Holding(responses: seq<Start>, n: nat, i: nat) {
    i < n == |responses| && responses[i].Started? && responses[i].replicas != []
  }

  /** One call, a revoke of everything for exactly the operations that hold replicas, or none if there are none. */
  ghost predicate RevokesHeld(calls: seq<BatchCall>, keys: seq<string>, responses: seq<Start>) {
    && |calls| <= 1 && (calls == [] <==> forall i: nat :: !Holding(responses, |keys|, i))
    && (calls != [] ==>
          var indices := calls[0].group.indices;
          && calls[0].slot == REVOKE_ALL && Parallel(calls[0].group, keys)
          && (forall i :: i in indices <==> Holding(responses, |keys|, i))
          && forall j, k :: 0 <= j < k < |indices| ==> indices[j] < indices[k])
  }

  /** The operation is planned to be revoked entirely if it holds replicas, and into no call otherwise. */
  ghost predicate PlannedToRevoke(plans: seq<Decision>, responses: seq<Start>) {
    forall i :: 0 <= i < |plans| ==>
      plans[i].end.None? && plans[i].revoke == if Holding(responses, |plans|, i) then Some(TypeAll) else None
  }

  lemma {:induction false} OnlyRevokeAll(plans: seq<Decision>, responses: seq<Start>, s: nat)
    requires PlannedToRevoke(plans, responses) && s <= SLOTS
    ensures var held := Members(plans, REVOKE_ALL, |plans|);
            CallsUpTo(plans, s) == if s <= REVOKE_ALL || held == [] then [] else [(REVOKE_ALL, held)]
  {
    if s > 0 {
      OnlyRevokeAll(plans, responses, s - 1);
      if s - 1 != REVOKE_ALL { NoMembers(plans, s - 1, |plans|); }
    }
  }

  lemma {:induction false} NoMembers(plans: seq<Decision>, s: nat, n: nat)
    requires n <= |plans| && forall i :: 0 <= i < n ==> !InSlot(plans[i], s)
    ensures Members(plans, s, n) == []
  {
    if n > 0 { NoMembers(plans, s, n - 1); }
  }

  lemma RevokesExactly(plans: seq<Decision>, responses: seq<Start>, calls: seq<BatchCall>, keys: seq<string>)
    requires |plans| == |keys| && PlannedToRevoke(plans, responses) && Matches(calls, CallsUpTo(plans, SLOTS), keys)
    ensures RevokesHeld(calls, keys, responses)
  {
    var held := Members(plans, REVOKE_ALL, |plans|);
    assert CallsUpTo(plans, SLOTS) == if held == [] then [] else [(REVOKE_ALL, held)] by {
      OnlyRevokeAll(plans, responses, SLOTS);
    }
    HeldExactly(plans, responses, held);
    if held != [] { assert held[0] in held; }
  }

  lemma HeldExactly(plans: seq<Decision>, responses: seq<Start>, held: seq<nat>)
    requires PlannedToRevoke(plans, responses) && held == Members(plans, REVOKE_ALL, |plans|)
    ensures forall i :: i in held <==> Holding(responses, |plans|, i)
    ensures forall j, k :: 0 <= j < k < |held| ==> held[j] < held[k]
  {
    MembersExact(plans, REVOKE_ALL, |plans|);
    forall i: nat ensures i in held <==> Holding(responses, |plans|, i) {
      if i < |plans| { assert plans[i].end.None?; }
    }
  }

  /** Operation i after start, submit and wait, in every case. */
  function StagedOp(key: string, mode: Mode, c: Config, responses: seq<Start>, n: nat, submitter: bool, xfer: Xfers,
                    i: nat): PutOp
    requires i < n
  {
    var op := if |responses| == n then StartOne(NewOp(key), mode, c, responses[i]) else NewOp(key).SetError(RpcFail);
    WaitOne(SubmitOne(op, submitter, xfer))
  }

  ghost predicate AllStaged(ops: seq<PutOp>, keys: seq<string>, mode: Mode, c: Config, responses: seq<Start>,
                            submitter: bool, xfers: nat -> Xfers)
  {
    |ops| == |keys| &&
    forall i :: 0 <= i < |ops| ==> ops[i] == StagedOp(keys[i], mode, c, responses, |keys|, submitter, xfers(i), i)
  }

  /** The three stages before finalize. */
  method Stage(ops: array<PutOp>, keys: seq<string>, mode: Mode, c: Config, responses: seq<Start>, submitter: bool,
               xfers: nat -> Xfers)
    requires ops.Length == |keys| && forall i :: 0 <= i < |keys| ==> ops[i] == NewOp(keys[i])
    modifies ops
    ensures AllStaged(ops[..], keys, mode, c, responses, submitter, xfers)
  {
    StartBatchPut(ops, mode, c, responses);
    SubmitTransfers(ops, submitter, xfers);
    WaitForTransfers(ops);
  }

  /** Without a submitter, or after a response of the wrong size, every operation has failed and only gives back. */
  lemma StagedToRevoke(ops: seq<PutOp>, keys: seq<string>, mode: Mode, c: Config, responses: seq<Start>,
                       submitter: bool, xfers: nat -> Xfers)
    requires AllStaged(ops, keys, mode, c, responses, submitter, xfers) && (!submitter || |responses| != |keys|)
    ensures PlannedToRevoke(PlansOf(ops, mode), responses) && KeysOf(ops) == keys
    ensures forall i :: 0 <= i < |ops| ==>
              ops[i].Resolved() && ops[i].result == Err(if submitter then RpcFail else InvalidParams)
  {
    forall i | 0 <= i < |ops|
      ensures ops[i].Resolved() && ops[i].key == keys[i]
      ensures ops[i].result == Err(if submitter then RpcFail else InvalidParams)
      ensures ops[i].replicas != [] <==> Holding(responses, |keys|, i)
    {
    }
  }

  lemma StagedIsPiped(ops: seq<PutOp>, keys: seq<string>, mode: Mode, c: Config, responses: seq<Start>,
                      xfers: nat -> Xfers)
    requires AllStaged(ops, keys, mode, c, responses, true, xfers) && |responses| == |keys|
    ensures ops == Piped(keys, mode, c, responses, xfers) && KeysOf(ops) == keys
  {
    PipelineKeepsKeys(keys, mode, c, responses, xfers);
  }

  /** The last two stages: every operation's result, and the calls, follow from what was staged. */
  ghost predicate Concluded(staged: seq<PutOp>, mode: Mode, rpc: GroupReplies, calls: seq<BatchCall>,
                            results: seq<Verdict>)
  {
    var plans := PlansOf(staged, mode);
    && |results| == |staged| && Matches(calls, CallsUpTo(plans, SLOTS), KeysOf(staged))
    && forall i :: 0 <= i < |staged| ==>
         results[i] == Collect(Settled(Prepared(staged[i]), plans[i], ErrorAfter(plans, rpc, SLOTS, i)).result)
  }

  method Conclude(ops: array<PutOp>, mode: Mode, rpc: GroupReplies)
    returns (results: seq<Verdict>, calls: seq<BatchCall>)
    modifies ops
    ensures Concluded(old(ops[..]), mode, rpc, calls, results)
  {
    var outstanding;
    calls, outstanding := FinalizeBatchPut(ops, mode, rpc);
    results := CollectResults(ops);
  }

  /**
   The result of a key that was granted replicas and whose own calls book this error or none: as the
   replicas and writes say, and a success only if there is none. An existing object counts as stored.
   */
  ghost predicate StoredAs(mode: Mode, c: Config, r: seq<Kind>, xfer: Xfers, err: Option<ErrorCode>, result: Verdict) {
    exists end, revoke, raw ::
      OutcomeIs(mode, c, r, xfer, end, revoke, raw) &&
      var v := if raw.Ok? && err.Some? then Err(err.value) else raw;
      result == if v == Err(ObjectAlreadyExists) then Ok(()) else v
  }

  lemma ConcludedStores(keys: seq<string>, mode: Mode, c: Config, responses: seq<Start>, xfers: nat -> Xfers,
                        rpc: GroupReplies, calls: seq<BatchCall>, results: seq<Verdict>, i: nat)
    requires i < |keys| == |responses| && responses[i].Started?
    requires Concluded(Piped(keys, mode, c, responses, xfers), mode, rpc, calls, results)
    ensures StoredAs(mode, c, responses[i].replicas, xfers(i),
                     ErrorAfter(PlansOf(Piped(keys, mode, c, responses, xfers), mode), rpc, SLOTS, i), results[i])
  {
    EveryKeyStored(keys, mode, c, responses, xfers, rpc, i);
  }

  /** A key that could not be started gets the error of the start. */
  lemma ConcludedRefuses(keys: seq<string>, mode: Mode, c: Config, responses: seq<Start>, xfers: nat -> Xfers,
                         rpc: GroupReplies, calls: seq<BatchCall>, results: seq<Verdict>, i: nat)
    requires i < |keys| == |responses| && responses[i].StartFailed?
    requires Concluded(Piped(keys, mode, c, responses, xfers), mode, rpc, calls, results)
    ensures results[i] == if responses[i].error == ObjectAlreadyExists then Ok(()) else Err(responses[i].error)
  {
    assert Piped(keys, mode, c, responses, xfers)[i] == Pipeline(keys[i], mode, c, responses[i], xfers(i));
  }

  lemma ConcludedFails(staged: seq<PutOp>, keys: seq<string>, mode: Mode, c: Config, responses: seq<Start>,
                       submitter: bool, xfers: nat -> Xfers, rpc: GroupReplies, calls: seq<BatchCall>,
                       results: seq<Verdict>)
    requires AllStaged(staged, keys, mode, c, responses, submitter, xfers) && (!submitter || |responses| != |keys|)
    requires Concluded(staged, mode, rpc, calls, results)
    ensures RevokesHeld(calls, keys, responses)
    ensures forall i :: 0 <= i < |keys| ==> results[i] == Err(if submitter then RpcFail else InvalidParams)
  {
    StagedToRevoke(staged, keys, mode, c, responses, submitter, xfers);
    RevokesExactly(PlansOf(staged, mode), responses, calls, keys);
  }

  /**
   The whole batched put. Without a transfer engine, or with a response of the wrong size, every key
   fails and whatever the master granted is revoked; otherwise every key gets the result of its own
   operation: the error of its start, or what its replicas, its writes and its own calls say.
   */
  method BatchPut(keys: seq<string>, mode: Mode, c: Config, responses: seq<Start>, submitter: bool,
                  xfers: nat -> Xfers, rpc: GroupReplies)
    returns (results: seq<Verdict>, calls: seq<BatchCall>)
    ensures |results| == |keys|
    ensures !submitter ==> forall i :: 0 <= i < |keys| ==> results[i] == Err(InvalidParams)
    ensures submitter && |responses| != |keys| ==> forall i :: 0 <= i < |keys| ==> results[i] == Err(RpcFail)
    ensures !submitter || |responses| != |keys| ==> RevokesHeld(calls, keys, responses)
    ensures |responses| != |keys| ==> calls == []
    ensures submitter && |responses| == |keys| ==>
              var ops := Piped(keys, mode, c, responses, xfers);
              var plans := PlansOf(ops, mode);
              && Concluded(ops, mode, rpc, calls, results) && Matches(calls, CallsUpTo(plans, SLOTS), keys)
              && forall i :: 0 <= i < |keys| ==>
                   if responses[i].Started?
                   then StoredAs(mode, c, responses[i].replicas, xfers(i), ErrorAfter(plans, rpc, SLOTS, i), results[i])
                   else results[i] == if responses[i].error == ObjectAlreadyExists then Ok(())
                       else Err(responses[i].error)
  {
    var ops := new PutOp[|keys|](i requires 0 <= i < |keys| => NewOp(keys[i]));
    Stage(ops, keys, mode, c, responses, submitter, xfers);
    ghost var staged := ops[..];
    results, calls := Conclude(ops, mode, rpc);
    if submitter && |responses| == |keys| {
      StagedIsPiped(staged, keys, mode, c, responses, xfers);
      forall i | 0 <= i < |keys|
        ensures if responses[i].Started?
                then StoredAs(mode, c, responses[i].replicas, xfers(i),
                              ErrorAfter(PlansOf(staged, mode), rpc, SLOTS, i), results[i])
                else results[i] == if responses[i].error == ObjectAlreadyExists then Ok(()) else Err(responses[i].error)
      {
        if responses[i].Started? {
          ConcludedStores(keys, mode, c, responses, xfers, rpc, calls, results, i);
        } else {
          ConcludedRefuses(keys, mode, c, responses, xfers, rpc, calls, results, i);
        }
      }
    } else {
      ConcludedFails(staged, keys, mode, c, responses, submitter, xfers, rpc, calls, results);
    }
  }
}
