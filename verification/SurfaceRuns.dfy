/** What holds over every run of the auth surface, however the requests interleave. */
module SurfaceRuns {
  import opened Text
  import opened IssuerRegistry
  import opened RequestBinding
  import opened SurfaceSteps

  const INITIAL := State(map[], map[], map[], map[], map[], map[])

  /** s' is reached from s by taking these steps, each enabled when taken. */
  ghost predicate Runs(s: State, steps: seq<Step>, s': State)
    decreases |steps|
  {
    if steps == [] then s' == s
    else Enabled(s, steps[0]) && Runs(Apply(s, steps[0]), steps[1..], s')
  }

  lemma {:induction false} RunsKeepInv(s: State, steps: seq<Step>, s': State)
    requires Inv(s) && Runs(s, steps, s')
    ensures Inv(s')
    decreases |steps|
  {
    if steps != [] {
      StepKeepsInv(s, steps[0]);
      RunsKeepInv(Apply(s, steps[0]), steps[1..], s');
    }
  }

  lemma {:induction false} RunsExtend(s: State, steps: seq<Step>, s': State, step: Step)
    requires Runs(s, steps, s') && Enabled(s', step)
    ensures Runs(s, steps + [step], Apply(s', step))
    decreases |steps|
  {
    if steps == [] {
      assert [step][1..] == [];
    } else {
      RunsExtend(Apply(s, steps[0]), steps[1..], s', step);
      assert (steps + [step])[1..] == steps[1..] + [step];
    }
  }

  /** Single consumption: no request ever has two witnesses, however its binding was copied. */
  lemma SingleConsumption(steps: seq<Step>, s: State, r: RequestId)
    requires Runs(INITIAL, steps, s) && r in s.records
    ensures |s.records[r].witnesses| <= 1
  {
    RunsKeepInv(INITIAL, steps, s);
    assert RecordOk(s.records[r]);
  }

  /** Once the guard of a request has dropped, nothing in the rest of the run changes its record. */
  lemma {:induction false} NothingAfterDrop(before: seq<Step>, s: State, steps: seq<Step>, s': State, r: RequestId)
    requires Runs(INITIAL, before, s) && Runs(s, steps, s')
    requires r in s.records && s.records[r].dropped
    ensures r in s'.records && s'.records[r] == s.records[r]
    decreases |steps|
  {
    if steps != [] {
      RunsKeepInv(INITIAL, before, s);
      StepAdvances(s, steps[0]);
      RunsExtend(INITIAL, before, s, steps[0]);
      NothingAfterDrop(before + [steps[0]], Apply(s, steps[0]), steps[1..], s', r);
    }
  }

  /** A request's stage never moves backwards over any stretch of any run. */
  lemma {:induction false} StageNeverRetreats(before: seq<Step>, s: State, steps: seq<Step>, s': State, r: RequestId)
    requires Runs(INITIAL, before, s) && Runs(s, steps, s') && r in s.records
    ensures r in s'.records && s.records[r].StageOf().Rank() <= s'.records[r].StageOf().Rank()
    decreases |steps|
  {
    if steps != [] {
      RunsKeepInv(INITIAL, before, s);
      StepAdvances(s, steps[0]);
      RunsExtend(INITIAL, before, s, steps[0]);
      StageNeverRetreats(before + [steps[0]], Apply(s, steps[0]), steps[1..], s', r);
    }
  }

  /** What a live binding's cell holds is the stage of the request that the binding was made for. */
  lemma CellShowsStage(steps: seq<Step>, s: State, h: HolderId)
    requires Runs(INITIAL, steps, s) && h in s.holders && s.holders[h].binding.Some?
    ensures var b := s.holders[h].binding.value;
      && b.lifecycle in s.cellOwner && s.cellOwner[b.lifecycle] in s.records
      && s.records[s.cellOwner[b.lifecycle]].binding == b
      && b.lifecycle in s.cells && s.cells[b.lifecycle] == s.records[s.cellOwner[b.lifecycle]].StageOf()
  {
    RunsKeepInv(INITIAL, steps, s);
    assert HolderOk(s, s.holders[h]);
  }

  /** An attempt that some check refuses. */
  predicate Refused(s: State, step: Step)
  {
    && step.Attempt? && step.holder in s.holders
    && Check(s.holders[step.holder], step.presented, step.authenticator).None?
  }

  predicate AllRefused(s: State, steps: seq<Step>)
  {
    steps == [] || (Refused(s, steps[0]) && AllRefused(s, steps[1..]))
  }

  /** However many attempts are refused, nothing changes: a request can still be granted afterwards. */
  lemma {:induction false} RefusalsChangeNothing(s: State, steps: seq<Step>, s': State)
    requires AllRefused(s, steps) && Runs(s, steps, s')
    ensures s' == s
    decreases |steps|
  {
    if steps != [] {
      RefusalLeavesState(s, steps[0]);
      RefusalsChangeNothing(s, steps[1..], s');
    }
  }

  /** In reachable states a pending attempt can always run its compare-and-exchange. */
  lemma ExchangeAlwaysEnabled(steps: seq<Step>, s: State, t: ThreadId)
    requires Runs(INITIAL, steps, s) && t in s.pending
    ensures Enabled(s, Exchange(t))
  {
    RunsKeepInv(INITIAL, steps, s);
    assert PendingOk(s, s.pending[t]);
  }

  // ----- Runs in which the wrapper decides -----

  /** Every reception in these steps is admitted as the wrapper decides on the authenticator's answer to it. */
  ghost predicate Decided(reg: Registry, steps: seq<Step>)
  {
    forall i :: 0 <= i < |steps| && steps[i].Receive? ==>
      steps[i].admitted == Admit(reg, steps[i].presented, steps[i].answer)
  }

  /** This step is the reception of request r that the record is of. */
  predicate IsReceptionOf(step: Step, r: RequestId, rec: Record)
  {
    && step.Receive? && step.request == r && step.presented == rec.received
    && step.admitted == Some(rec.admission)
  }

  /** A record is of a request that was there at the start, or of one of the receptions, as admitted then. */
  lemma {:induction false} RecordsAreReceived(s: State, steps: seq<Step>, s': State, r: RequestId)
    requires Runs(s, steps, s') && r in s'.records
    ensures
      || (r in s.records && SameRequest(s.records[r], s'.records[r]))
      || exists i :: 0 <= i < |steps| && IsReceptionOf(steps[i], r, s'.records[r])
    decreases |steps|
  {
    if steps != [] {
      var next := Apply(s, steps[0]);
      RecordsAreReceived(next, steps[1..], s', r);
      if r in next.records && SameRequest(next.records[r], s'.records[r]) {
        StepKeepsRequests(s, steps[0], r);
      } else {
        var i :| 0 <= i < |steps[1..]| && IsReceptionOf(steps[1..][i], r, s'.records[r]);
        assert steps[i + 1] == steps[1..][i];
      }
    }
  }

  /** What a witness of a reception may carry: the authenticator's own answer on a protected route, else nothing. */
  predicate Attests(reg: Registry, received: Step, w: Witness)
    requires received.Receive?
  {
    var route := RouteOf(reg, received.presented.uri.path);
    && received.presented.Same(w.presented)
    && (Unauthenticated(route) || route.Protected?)
    && (Unauthenticated(route) ==> w.grant == Grant(None, None))
    && (route.Protected? ==>
          && MayEnter(route.entry, received.answer)
          && w.grant == Grant(received.answer, Some(route.entry.surface))
          && w.authenticator == route.entry.authenticator)
  }

  /**
   * Provenance: in every run, each witness credited to a request goes back to one reception of that
   * request. It was taken with the method, URI and Authorization values of that reception. On a
   * protected route it carries exactly what the authenticator answered about that reception and the
   * surface it was routed to, and was asked for by the authenticator that answered; on a public or
   * passed-through path it carries nothing, and no other route yields one.
   */
  lemma Provenance(reg: Registry, steps: seq<Step>, s: State, r: RequestId, w: Witness) returns (i: nat)
    requires Runs(INITIAL, steps, s) && Decided(reg, steps) && r in s.records && w in s.records[r].witnesses
    ensures i < |steps| && steps[i].Receive? && steps[i].request == r && Attests(reg, steps[i], w)
  {
    RunsKeepInv(INITIAL, steps, s);
    assert RecordOk(s.records[r]);
    RecordsAreReceived(INITIAL, steps, s, r);
    i :| i < |steps| && IsReceptionOf(steps[i], r, s.records[r]);
    AdmittedExactly(reg, steps[i].presented, steps[i].answer);
  }
}
