/**
 The replicated put: what one operation counts, what it decides, and what `Put` on a single key does.
 Replies of the master and outcomes of transfers are parameters.
 */
module PutPolicy {
  import opened Machine
  import opened Store

  /** The type named in a finalize call. */
  datatype ReplicaType = TypeAll | TypeMemory | TypeNof | TypeDisk

  datatype Config = Config(replicaNum: nat, nofReplicaNum: nat)

  /** DetermineReplicaWriteMode == FLEXIBLE_DUAL_REPLICA, any function of the two replica counts. */
  type Mode = (nat, nat) -> bool

  predicate Flexible(mode: Mode, c: Config) {
    mode(c.replicaNum, c.nofReplicaNum)
  }

  /** What the transfer engine does with the write of one replica. */
  datatype Xfer = NotSubmitted | Finished(error: ErrorCode)

  type Xfers = nat -> Xfer

  predicate Written(x: Xfer) {
    x == Finished(NoError)
  }

  predicate Transferred(k: Kind) {
    k == Memory || k == NofSsd
  }

  predicate Covers(t: ReplicaType, k: Kind) {
    match t
    case TypeAll => true
    case TypeMemory => k == Memory
    case TypeNof => k == NofSsd
    case TypeDisk => k == Disk
  }

  // ----- the counters -----

  datatype Summary = Summary(allocMem: nat, allocNof: nat, okMem: nat, okNof: nat, badMem: nat, badNof: nat,
                             firstError: ErrorCode)
  {
    function Allocated(k: Kind): Summary {
      match k
      case Memory => this.(allocMem := allocMem + 1)
      case NofSsd => this.(allocNof := allocNof + 1)
      case _ => this
    }

    function Success(k: Kind): Summary {
      match k
      case Memory => this.(okMem := okMem + 1)
      case NofSsd => this.(okNof := okNof + 1)
      case _ => this
    }

    function Failure(k: Kind, e: ErrorCode): Summary {
      var s := match k
        case Memory => this.(badMem := badMem + 1)
        case NofSsd => this.(badNof := badNof + 1)
        case _ => this;
      if s.firstError == NoError then s.(firstError := e) else s
    }

    function Outcome(k: Kind, e: ErrorCode): Summary {
      if e == NoError then Success(k) else Failure(k, e)
    }
  }

  const ZERO := Summary(0, 0, 0, 0, 0, 0, NoError)

  function AllocateUpTo(replicas: seq<Kind>, k: nat): Summary
    requires k <= |replicas|
  {
    if k == 0 then ZERO else AllocateUpTo(replicas, k - 1).Allocated(replicas[k - 1])
  }

  function AllocSummary(replicas: seq<Kind>): Summary {
    AllocateUpTo(replicas, |replicas|)
  }

  /** How many of the first k replicas have this kind; how many of those were written. */
  function CountKind(replicas: seq<Kind>, kind: Kind, k: nat): nat
    requires k <= |replicas|
  {
    if k == 0 then 0 else CountKind(replicas, kind, k - 1) + if replicas[k - 1] == kind then 1 else 0
  }

  function CountWritten(replicas: seq<Kind>, xfer: Xfers, kind: Kind, k: nat): nat
    requires k <= |replicas|
  {
    if k == 0 then 0
    else CountWritten(replicas, xfer, kind, k - 1) + if replicas[k - 1] == kind && Written(xfer(k - 1)) then 1 else 0
  }

  // ----- the decision -----

  predicate HasExpectedAllocation(mode: Mode, c: Config, s: Summary) {
    if c.nofReplicaNum == 0 then s.allocMem > 0
    else if Flexible(mode, c) then s.allocMem + s.allocNof > 0
    else s.allocMem == c.replicaNum && s.allocNof == c.nofReplicaNum
  }

  datatype Decision = Decision(end: Option<ReplicaType>, revoke: Option<ReplicaType>, success: bool, error: ErrorCode)

  function Decide(mode: Mode, c: Config, s: Summary): Decision {
    if !Flexible(mode, c) then
      var expected := HasExpectedAllocation(mode, c, s);
      if expected && s.okMem == s.allocMem && s.okNof == s.allocNof && s.badMem == 0 && s.badNof == 0
      then Decision(Some(TypeAll), None, true, NoError)
      else Decision(None, Some(TypeAll), false,
                    if !expected then NoAvailableHandle
                    else if s.firstError == NoError then TransferFail else s.firstError)
    else if s.okMem > 0 && s.okNof > 0 then Decision(Some(TypeAll), None, true, NoError)
    else if s.okMem > 0 then Decision(Some(TypeMemory), Some(TypeNof), true, NoError)
    else if s.okNof > 0 then Decision(Some(TypeNof), Some(TypeMemory), true, NoError)
    else Decision(None, Some(TypeAll), false, if s.firstError == NoError then NoAvailableHandle else s.firstError)
  }

  /** A decision always finalizes both transferred types, each exactly once, and names its error. */
  lemma DecisionPartitions(mode: Mode, c: Config, s: Summary, k: Kind)
    requires Transferred(k)
    ensures var d := Decide(mode, c, s);
            && ((d.end.Some? && Covers(d.end.value, k)) != (d.revoke.Some? && Covers(d.revoke.value, k)))
            && (d.success <==> d.end.Some?)
            && (d.success <==> d.error == NoError)
            && d.end != Some(TypeDisk) && d.revoke != Some(TypeDisk)
  {
  }

  // ----- a single put -----

  datatype Start = Started(replicas: seq<Kind>) | StartFailed(error: ErrorCode)

  datatype MasterCall = PutEnd(t: ReplicaType) | PutRevoke(t: ReplicaType)

  /** The replies to the finalize calls: None is success. */
  datatype FinalReplies = FinalReplies(end: Option<ErrorCode>, revoke: Option<ErrorCode>)

  type Verdict = Result<(), ErrorCode>

  /** TransferWrite submits and waits; a write that cannot be submitted fails with TRANSFER_FAIL. */
  function WriteResult(x: Xfer): ErrorCode {
    match x
    case NotSubmitted => TransferFail
    case Finished(e) => e
  }

  function SerialUpTo(replicas: seq<Kind>, xfer: Xfers, k: nat): Summary
    requires k <= |replicas|
  {
    if k == 0 then AllocSummary(replicas)
    else
      var s := SerialUpTo(replicas, xfer, k - 1);
      if Transferred(replicas[k - 1]) then s.Outcome(replicas[k - 1], WriteResult(xfer(k - 1))) else s
  }

  function SerialSummary(replicas: seq<Kind>, xfer: Xfers): Summary {
    SerialUpTo(replicas, xfer, |replicas|)
  }

  /** The finalize calls a decision leads to, in order, and the verdict; a failed End ends the put. */
  function FinishPut(d: Decision, f: FinalReplies): (seq<MasterCall>, Verdict) {
    var ends := if d.end.Some? then [PutEnd(d.end.value)] else [];
    if d.end.Some? && f.end.Some? then (ends, Err(f.end.value))
    else
      var calls := ends + if d.revoke.Some? then [PutRevoke(d.revoke.value)] else [];
      if d.revoke.Some? && f.revoke.Some? then (calls, Err(f.revoke.value))
      else (calls, if d.success then Ok(()) else Err(d.error))
  }

  function PutSpec(mode: Mode, c: Config, start: Start, xfer: Xfers, f: FinalReplies): (seq<MasterCall>, Verdict) {
    match start
    case StartFailed(e) => ([], if e == ObjectAlreadyExists then Ok(()) else Err(e))
    case Started(replicas) => FinishPut(Decide(mode, c, SerialSummary(replicas, xfer)), f)
  }

  /**
   Put. In a reliable mode it ends everything exactly if the allocation is the one asked for and every
   memory and NoF replica was written, and otherwise revokes everything. In the flexible mode it ends
   exactly the types of which some replica was written and revokes the others.
   */
  method Put(mode: Mode, c: Config, start: Start, xfer: Xfers, f: FinalReplies)
    returns (calls: seq<MasterCall>, verdict: Verdict)
    ensures calls == PutSpec(mode, c, start, xfer, f).0 && verdict == PutSpec(mode, c, start, xfer, f).1
    ensures start.StartFailed? ==>
              calls == [] && verdict == if start.error == ObjectAlreadyExists then Ok(()) else Err(start.error)
    // reliable modes
    ensures start.Started? && !mode(c.replicaNum, c.nofReplicaNum) ==>
              var r := start.replicas;
              var asked := if c.nofReplicaNum == 0 then Memory in r
                           else multiset(r)[Memory] == c.replicaNum && multiset(r)[NofSsd] == c.nofReplicaNum;
              var written := forall j :: 0 <= j < |r| && (r[j] == Memory || r[j] == NofSsd) ==>
                    xfer(j) == Finished(NoError);
              if asked && written
              then calls == [PutEnd(TypeAll)] && verdict == if f.end.Some? then Err(f.end.value) else Ok(())
              else
                && calls == [PutRevoke(TypeAll)] && verdict.Err?
                && (f.revoke.Some? ==> verdict.error == f.revoke.value)
                && (f.revoke.None? && !asked ==> verdict.error == NoAvailableHandle)
                && (f.revoke.None? && asked ==> forall j :: 0 <= j < |r| && FirstFailure(r, xfer, j) ==>
                      verdict.error == if xfer(j) == NotSubmitted then TransferFail else xfer(j).error)
    // the flexible mode
    ensures start.Started? && mode(c.replicaNum, c.nofReplicaNum) ==>
              var r := start.replicas;
              var mem := exists j :: 0 <= j < |r| && r[j] == Memory && xfer(j) == Finished(NoError);
              var nof := exists j :: 0 <= j < |r| && r[j] == NofSsd && xfer(j) == Finished(NoError);
              if mem && nof
              then calls == [PutEnd(TypeAll)] && verdict == if f.end.Some? then Err(f.end.value) else Ok(())
              else if mem || nof then
                var end, revoke := if mem then TypeMemory else TypeNof, if mem then TypeNof else TypeMemory;
                if f.end.Some? then calls == [PutEnd(end)] && verdict == Err(f.end.value)
                else calls == [PutEnd(end), PutRevoke(revoke)] &&
                     verdict == if f.revoke.Some? then Err(f.revoke.value) else Ok(())
              else
                && calls == [PutRevoke(TypeAll)] && verdict.Err?
                && (f.revoke.Some? ==> verdict.error == f.revoke.value)
                && (f.revoke.None? && Memory !in r && NofSsd !in r ==> verdict.error == NoAvailableHandle)
                && (f.revoke.None? ==> forall j :: 0 <= j < |r| && FirstFailure(r, xfer, j) ==>
                      verdict.error == if xfer(j) == NotSubmitted then TransferFail else xfer(j).error)
  {
    if start.StartFailed? {
      return [], if start.error == ObjectAlreadyExists then Ok(()) else Err(start.error);
    }
    var summary := TransferAll(start.replicas, xfer);
    var d := Decide(mode, c, summary);
    DecisionMeans(mode, c, start.replicas, xfer);
    calls, verdict := Finish(d, f);
  }

  /** Counts the replicas and writes them one after the other. */
  method TransferAll(replicas: seq<Kind>, xfer: Xfers) returns (summary: Summary)
    ensures summary == SerialSummary(replicas, xfer)
  {
    summary := ZERO;
    for i := 0 to |replicas|
      invariant summary == AllocateUpTo(replicas, i)
    {
      summary := summary.Allocated(replicas[i]);
    }
    for i := 0 to |replicas|
      invariant summary == SerialUpTo(replicas, xfer, i)
    {
      if Transferred(replicas[i]) {
        var e := WriteResult(xfer(i));
        if e != NoError {
          summary := summary.Failure(replicas[i], e);
        } else {
          summary := summary.Success(replicas[i]);
        }
      }
    }
  }

  /** The finalize calls of a single put. */
  method Finish(d: Decision, f: FinalReplies) returns (calls: seq<MasterCall>, verdict: Verdict)
    ensures calls == FinishPut(d, f).0 && verdict == FinishPut(d, f).1
  {
    calls := [];
    if d.end.Some? {
      calls := [PutEnd(d.end.value)];
      if f.end.Some? {
        return calls, Err(f.end.value);
      }
    }
    if d.revoke.Some? {
      calls := calls + [PutRevoke(d.revoke.value)];
      if f.revoke.Some? {
        return calls, Err(f.revoke.value);
      }
    }
    verdict := if d.success then Ok(()) else Err(d.error);
  }

  // ----- what the counters mean -----

  lemma {:induction false} AllocationCounts(replicas: seq<Kind>, k: nat)
    requires k <= |replicas|
    ensures var s := AllocateUpTo(replicas, k);
            && s.allocMem == CountKind(replicas, Memory, k) && s.allocNof == CountKind(replicas, NofSsd, k)
            && s.(allocMem := 0, allocNof := 0) == ZERO
  {
    if k > 0 { AllocationCounts(replicas, k - 1); }
  }

  lemma {:induction false} SerialCounts(replicas: seq<Kind>, xfer: Xfers, k: nat)
    requires k <= |replicas|
    ensures var s := SerialUpTo(replicas, xfer, k);
            && s.allocMem == CountKind(replicas, Memory, |replicas|)
            && s.allocNof == CountKind(replicas, NofSsd, |replicas|)
            && s.okMem == CountWritten(replicas, xfer, Memory, k)
            && s.okNof == CountWritten(replicas, xfer, NofSsd, k)
            && s.okMem + s.badMem == CountKind(replicas, Memory, k)
            && s.okNof + s.badNof == CountKind(replicas, NofSsd, k)
            && (s.firstError == NoError <==> s.badMem == 0 && s.badNof == 0)
  {
    if k == 0 { AllocationCounts(replicas, |replicas|); } else { SerialCounts(replicas, xfer, k - 1); }
  }

  /** All replicas of a kind were written exactly when the two counts are equal. */
  lemma {:induction false} AllWrittenIff(replicas: seq<Kind>, xfer: Xfers, kind: Kind, k: nat)
    requires k <= |replicas|
    ensures CountWritten(replicas, xfer, kind, k) <= CountKind(replicas, kind, k)
    ensures CountWritten(replicas, xfer, kind, k) == CountKind(replicas, kind, k) <==>
            forall j :: 0 <= j < k && replicas[j] == kind ==> Written(xfer(j))
  {
    if k > 0 { AllWrittenIff(replicas, xfer, kind, k - 1); }
  }

  // ----- what the decision means -----

  /** Whatever failed first did so with this error; a write that was not submitted counts as TRANSFER_FAIL. */
  ghost predicate FailsFirstWith(replicas: seq<Kind>, xfer: Xfers, e: ErrorCode) {
    forall j :: 0 <= j < |replicas| && FirstFailure(replicas, xfer, j) ==>
      e == if xfer(j) == NotSubmitted then TransferFail else xfer(j).error
  }

  /** The first failing write in replica order. */
  predicate FirstFailure(replicas: seq<Kind>, xfer: Xfers, j: nat)
    requires j < |replicas|
  {
    && (replicas[j] == Memory || replicas[j] == NofSsd) && xfer(j) != Finished(NoError)
    && forall i :: 0 <= i < j && (replicas[i] == Memory || replicas[i] == NofSsd) ==> xfer(i) == Finished(NoError)
  }

  lemma {:induction false} SerialFirstError(replicas: seq<Kind>, xfer: Xfers, k: nat, j: nat)
    requires j < k <= |replicas| && FirstFailure(replicas, xfer, j)
    ensures SerialUpTo(replicas, xfer, k).firstError == WriteResult(xfer(j))
    decreases k
  {
    if k - 1 > j {
      SerialFirstError(replicas, xfer, k - 1, j);
    } else {
      SerialCounts(replicas, xfer, j);
      NoFailureBefore(replicas, xfer, j);
    }
  }

  lemma {:induction false} NoFailureBefore(replicas: seq<Kind>, xfer: Xfers, k: nat)
    requires k <= |replicas| && forall i :: 0 <= i < k && Transferred(replicas[i]) ==> Written(xfer(i))
    ensures SerialUpTo(replicas, xfer, k).firstError == NoError
  {
    if k > 0 {
      NoFailureBefore(replicas, xfer, k - 1);
    } else {
      AllocationCounts(replicas, |replicas|);
    }
  }

  lemma {:induction false} FindFirstFailure(replicas: seq<Kind>, xfer: Xfers, k: nat) returns (first: Option<nat>)
    requires k <= |replicas|
    ensures first.None? ==> forall i :: 0 <= i < k && Transferred(replicas[i]) ==> Written(xfer(i))
    ensures first.Some? ==> first.value < k && FirstFailure(replicas, xfer, first.value)
  {
    first := None;
    if k > 0 {
      first := FindFirstFailure(replicas, xfer, k - 1);
      if first.None? && Transferred(replicas[k - 1]) && !Written(xfer(k - 1)) { first := Some(k - 1); }
    }
  }

  lemma {:induction false} CountIs(replicas: seq<Kind>, kind: Kind, k: nat)
    requires k <= |replicas|
    ensures CountKind(replicas, kind, k) == multiset(replicas[..k])[kind]
  {
    if k > 0 {
      CountIs(replicas, kind, k - 1);
      assert replicas[..k] == replicas[..k - 1] + [replicas[k - 1]];
    }
  }

  /** Some replica of a kind was written exactly when its count is not zero. */
  lemma {:induction false} SomeWrittenIff(replicas: seq<Kind>, xfer: Xfers, kind: Kind, k: nat)
    requires k <= |replicas|
    ensures CountWritten(replicas, xfer, kind, k) > 0 <==>
            exists j :: 0 <= j < k && replicas[j] == kind && xfer(j) == Finished(NoError)
  {
    if k > 0 { SomeWrittenIff(replicas, xfer, kind, k - 1); }
  }

  /** Some replica of the kind was written. */
  ghost predicate WritesSome(replicas: seq<Kind>, xfer: Xfers, kind: Kind) {
    exists j :: 0 <= j < |replicas| && replicas[j] == kind && xfer(j) == Finished(NoError)
  }

  /** The counters of a serial put, in terms of the replicas. */
  lemma SummaryMeans(replicas: seq<Kind>, xfer: Xfers)
    ensures var s := SerialSummary(replicas, xfer);
            && s.allocMem == multiset(replicas)[Memory] && s.allocNof == multiset(replicas)[NofSsd]
            && s.okMem + s.badMem == s.allocMem && s.okNof + s.badNof == s.allocNof
            && (s.firstError == NoError <==> s.badMem == 0 && s.badNof == 0)
            && (s.badMem == 0 && s.badNof == 0 <==>
                forall j :: 0 <= j < |replicas| && (replicas[j] == Memory || replicas[j] == NofSsd) ==>
                  xfer(j) == Finished(NoError))
            && (s.okMem > 0 <==> WritesSome(replicas, xfer, Memory)) &&
               (s.okNof > 0 <==> WritesSome(replicas, xfer, NofSsd))
            && FailsFirstWith(replicas, xfer, s.firstError)
  {
    var n := |replicas|;
    SerialCounts(replicas, xfer, n);
    CountIs(replicas, Memory, n);
    CountIs(replicas, NofSsd, n);
    assert replicas[..n] == replicas;
    AllWrittenIff(replicas, xfer, Memory, n);
    AllWrittenIff(replicas, xfer, NofSsd, n);
    SomeWrittenIff(replicas, xfer, Memory, n);
    SomeWrittenIff(replicas, xfer, NofSsd, n);
    forall j | 0 <= j < n && FirstFailure(replicas, xfer, j)
      ensures SerialUpTo(replicas, xfer, n).firstError == WriteResult(xfer(j))
    {
      SerialFirstError(replicas, xfer, n, j);
    }
  }

  lemma DecisionMeans(mode: Mode, c: Config, r: seq<Kind>, xfer: Xfers)
    ensures var d := Decide(mode, c, SerialSummary(r, xfer));
            var mem := exists j :: 0 <= j < |r| && r[j] == Memory && xfer(j) == Finished(NoError);
            var nof := exists j :: 0 <= j < |r| && r[j] == NofSsd && xfer(j) == Finished(NoError);
            if mode(c.replicaNum, c.nofReplicaNum) then
              if mem && nof then d == Decision(Some(TypeAll), None, true, NoError)
              else if mem then d == Decision(Some(TypeMemory), Some(TypeNof), true, NoError)
              else if nof then d == Decision(Some(TypeNof), Some(TypeMemory), true, NoError)
              else
                && d == Decision(None, Some(TypeAll), false, d.error)
                && FailsFirstWith(r, xfer, d.error) && (Memory !in r && NofSsd !in r ==> d.error == NoAvailableHandle)
            else
              var asked := if c.nofReplicaNum == 0 then Memory in r
                           else multiset(r)[Memory] == c.replicaNum && multiset(r)[NofSsd] == c.nofReplicaNum;
              if asked && forall j :: 0 <= j < |r| && (r[j] == Memory || r[j] == NofSsd) ==>
                    xfer(j) == Finished(NoError)
              then d == Decision(Some(TypeAll), None, true, NoError)
              else
                && d == Decision(None, Some(TypeAll), false, d.error)
                && if asked then FailsFirstWith(r, xfer, d.error) else d.error == NoAvailableHandle
  {
    SummaryMeans(r, xfer);
    assert Memory in r <==> multiset(r)[Memory] > 0;
    assert NofSsd in r <==> multiset(r)[NofSsd] > 0;
  }
}
