/**
 * One webhook handler as the code runs it, reading and updating the stored plans and the
 * outbox, proved against the protocol's decisions when nothing interrupts it.
 */
module RecoveryPrHandler {
  import opened Json
  import opened RecoveryPr

  // A read names a stored plan, if any.
  ghost predicate Stored(plans: Plans, found: Option<string>) {
    found.Some? ==> found.value in plans
  }

  // Where an uninterrupted handler arrives, from the two reads of the same plans.
  function Solo(plans: Plans, d: Delivery, base: Option<string>, exact: Option<string>, bound: bool, image: string): Progress
    requires Stored(plans, base) && Stored(plans, exact)
  {
    if base.None? then Ended(Untracked)
    else
      var seen := plans[base.value];
      var next := AfterBase(d, base.value, seen, exact, if exact.Some? then plans[exact.value] else seen);
      if next.HasExact? then AfterExact(d, next.plan, next.seen, bound, image) else next
  }

  // The plans and outbox a handler that arrived there leaves behind.
  ghost predicate Concludes(plans: Plans, sent: seq<Body>, d: Delivery, at: Progress, plans': Plans, sent': seq<Body>, outcome: Outcome) {
    match at
    case Ended(o) => outcome == o && plans' == plans && sent' == sent
    case Rejecting(_, _, _) => Concluded(plans, sent, d, at, plans', sent', outcome)
    case Merging(_, _) => Concluded(plans, sent, d, at, plans', sent', outcome)
    case _ => false
  }

  ghost predicate Concluded(plans: Plans, sent: seq<Body>, d: Delivery, at: Progress, plans': Plans, sent': seq<Body>, outcome: Outcome)
    requires at.Rejecting? || at.Merging?
  {
    && outcome == Won && Wins(plans, StatusOnly, at)
    && plans' == AfterCas(plans, d, at) && sent' == sent + Bodies(d, at)
  }

  lemma ReadsUnique(plans: Plans, pr: PullRequest, one: Option<string>, other: Option<string>)
    ensures ReadsBase(plans, pr, one) && ReadsBase(plans, pr, other) ==> one == other
    ensures ReadsExact(plans, pr, one) && ReadsExact(plans, pr, other) ==> one == other
  {
  }

  lemma OnlyElement<T>(rows: set<T>, row: T)
    requires row in rows
    ensures |rows| == 1 <==> rows == {row}
  {
    if |rows| == 1 {
      assert |rows - {row}| == 0;
    }
  }

  class PlanStore {
    var plans: Plans
    var outbox: seq<Body>

    constructor (stored: Plans)
      ensures plans == stored && outbox == []
    {
      plans, outbox := stored, [];
    }

    // find_open_recovery_plan_for_pull_request_base_identity
    method FindBase(pr: PullRequest) returns (found: Option<string>)
      ensures ReadsBase(plans, pr, found)
    {
      var rows := set k | k in plans && Matches(plans[k], pr.base);
      if |rows| == 1 {
        var row :| row in rows;
        OnlyElement(rows, row);
        assert forall k :: k in plans && Matches(plans[k], pr.base) ==> k in rows;
        return Some(row);
      }
      forall key | key in plans && Matches(plans[key], pr.base)
        ensures exists other :: other in plans && other != key && Matches(plans[other], pr.base)
      {
        OnlyElement(rows, key);
        assert rows != {key} && rows - {key} != {};
        var other :| other in rows - {key};
      }
      return None;
    }

    // find_open_recovery_plan_for_pull_request
    method FindExact(pr: PullRequest) returns (found: Option<string>)
      ensures ReadsExact(plans, pr, found)
    {
      var rows := set k | k in plans && MatchesHead(plans[k], pr);
      if |rows| == 1 {
        var row :| row in rows;
        OnlyElement(rows, row);
        assert forall k :: k in plans && MatchesHead(plans[k], pr) ==> k in rows;
        return Some(row);
      }
      forall key | key in plans && MatchesHead(plans[key], pr)
        ensures exists other :: other in plans && other != key && MatchesHead(plans[other], pr)
      {
        OnlyElement(rows, key);
        assert rows != {key} && rows - {key} != {};
        var other :| other in rows - {key};
      }
      return None;
    }

    // update_recovery_plan_lifecycle_if_status, from pr_open
    method UpdateIfOpen(key: string, status: Status, lifecycle: Lifecycle, clearSelection: bool) returns (saved: bool)
      modifies this`plans
      ensures saved <==> key in old(plans) && old(plans)[key].status.PrOpen?
      ensures !saved ==> plans == old(plans)
      ensures saved ==> plans.Keys == old(plans).Keys && forall k :: k in plans && k != key ==> plans[k] == old(plans)[k]
      ensures saved ==> plans[key] == old(plans)[key].(status := status, lifecycle := lifecycle, selection := plans[key].selection)
      ensures saved ==> plans[key].selection == if clearSelection then None else old(plans)[key].selection
    {
      if key !in plans || !plans[key].status.PrOpen? {
        return false;
      }
      var plan := plans[key].(status := status, lifecycle := lifecycle);
      if clearSelection {
        plan := plan.(selection := None);
      }
      plans := plans[key := plan];
      return true;
    }

    // reject_tracked_recovery_pull_request
    method Reject(d: Delivery, key: string, seen: Plan, reason: Reason) returns (outcome: Outcome)
      modifies this
      ensures outcome == if Wins(old(plans), StatusOnly, Rejecting(key, seen, reason)) then Won else Lost
      ensures outcome.Won? ==> plans == AfterCas(old(plans), d, Rejecting(key, seen, reason))
      ensures outcome.Won? ==> plans[key].selection.None? && plans[key].lifecycle.failure == Some(reason)
      ensures outcome.Lost? ==> plans == old(plans)
      ensures outbox == old(outbox) + if outcome.Won? then Bodies(d, Rejecting(key, seen, reason)) else []
    {
      var saved := UpdateIfOpen(key, SelectionRequested, seen.lifecycle.(phase := Failed, failure := Some(reason)), true);
      if !saved {
        return Lost;
      }
      outbox := outbox + [VerificationFailed(key, reason)];
      return Won;
    }

    // handle_tracked_recovery_pull_request, from the exact record on
    method HandleMerged(d: Delivery, key: string, bound: bool, image: string) returns (outcome: Outcome)
      requires key in plans && plans[key].status.PrOpen?
      modifies this
      ensures Concludes(old(plans), old(outbox), d, AfterExact(d, key, old(plans)[key], bound, image), plans, outbox, outcome)
    {
      var seen := plans[key];
      if !bound {
        outcome := Reject(d, key, seen, BindingUnavailable);
        return;
      }
      if seen.lifecycle.blockers != [] {
        return Blocked;
      }
      if image == "" || d.mergeCommit == "" || !seen.approved {
        outcome := Reject(d, key, seen, ContextIncomplete);
        return;
      }
      var saved := UpdateIfOpen(key, DeployPending, seen.lifecycle.(phase := Deploying, merge := Some(d.mergeCommit)), false);
      if !saved {
        return Lost;
      }
      outbox := outbox + [PrMerged(key, d.mergeCommit), DeployRequest(key, d.mergeCommit)];
      return Won;
    }

    // handle_tracked_recovery_pull_request
    method Handle(d: Delivery, bound: bool, image: string) returns (outcome: Outcome)
      modifies this
      ensures forall base, exact :: ReadsBase(old(plans), d.pr, base) && ReadsExact(old(plans), d.pr, exact) ==>
        Concludes(old(plans), old(outbox), d, Solo(old(plans), d, base, exact, bound, image), plans, outbox, outcome)
    {
      ghost var before := plans;
      var base := FindBase(d.pr);
      forall other ensures ReadsBase(before, d.pr, other) ==> other == base { ReadsUnique(before, d.pr, other, base); }
      if base.None? {
        return Untracked;
      }
      var seen := plans[base.value];
      assert Matches(seen, d.pr.base);
      if d.action.Synchronize? {
        outcome := Reject(d, base.value, seen, HeadChanged);
        return;
      }
      if !d.action.Closed? {
        return StillOpen;
      }
      if !d.merged {
        outcome := Reject(d, base.value, seen, ClosedUnmerged);
        return;
      }
      var exact := FindExact(d.pr);
      forall other ensures ReadsExact(before, d.pr, other) ==> other == exact { ReadsUnique(before, d.pr, other, exact); }
      if exact.None? {
        outcome := Reject(d, base.value, seen, HeadMismatch);
        return;
      }
      assert MatchesHead(plans[exact.value], d.pr);
      outcome := HandleMerged(d, exact.value, bound, image);
    }
  }

  // With one open plan tracking the pull request, the exact read finds that plan if its head is
  // the delivered one, and nothing otherwise.
  lemma ReadsAgree(plans: Plans, pr: PullRequest, base: Option<string>, exact: Option<string>)
    requires ReadsBase(plans, pr, base) && ReadsExact(plans, pr, exact) && base.Some?
    ensures base.value in plans && exact == if plans[base.value].lifecycle.pr.headSha == pr.headSha then base else None
  {
    var plan := plans[base.value];
    assert Matches(plan, pr.base) && (MatchesHead(plan, pr) <==> plan.lifecycle.pr.headSha == pr.headSha);
    assert exact.Some? ==> MatchesHead(plans[exact.value], pr);
  }

  // Why an uninterrupted handler rejects: a changed head, a close without merge, a head no open
  // plan tracks, a missing binding, or an incomplete context, in this order.
  lemma SoloRejectsIff(plans: Plans, d: Delivery, base: Option<string>, exact: Option<string>, bound: bool, image: string)
    requires ReadsBase(plans, d.pr, base) && ReadsExact(plans, d.pr, exact) && base.Some?
    ensures var at, plan := Solo(plans, d, base, exact, bound, image), plans[base.value];
            var merged, sameHead := d.action.Closed? && d.merged, plan.lifecycle.pr.headSha == d.pr.headSha;
            && (at.Rejecting? ==> at.plan == base.value && at.seen == plan)
            && (at.Rejecting? && at.reason.HeadChanged? <==> d.action.Synchronize?)
            && (at.Rejecting? && at.reason.ClosedUnmerged? <==> d.action.Closed? && !d.merged)
            && (at.Rejecting? && at.reason.HeadMismatch? <==> merged && !sameHead)
            && (at.Rejecting? && at.reason.BindingUnavailable? <==> merged && sameHead && !bound)
            && (at.Rejecting? && at.reason.ContextIncomplete? <==>
                  && merged && sameHead && bound && plan.lifecycle.blockers == []
                  && (image == "" || d.mergeCommit == "" || !plan.approved))
            && (at == Ended(Blocked) <==> merged && sameHead && bound && plan.lifecycle.blockers != [])
            && (at == Ended(StillOpen) <==> d.action.OtherAction?)
  {
    ReadsAgree(plans, d.pr, base, exact);
  }

  // An uninterrupted handler deploys exactly when the delivery is merged, one open plan tracks
  // exactly its head, the binding and the image exist, nothing blocks and the plan is approved.
  lemma SoloMergesIff(plans: Plans, d: Delivery, base: Option<string>, exact: Option<string>, bound: bool, image: string)
    requires ReadsBase(plans, d.pr, base) && ReadsExact(plans, d.pr, exact)
    ensures Solo(plans, d, base, exact, bound, image).Merging? <==>
      && base.Some? && exact == base && d.action.Closed? && d.merged
      && bound && image != "" && d.mergeCommit != ""
      && plans[base.value].lifecycle.pr == d.pr && plans[base.value].lifecycle.blockers == [] && plans[base.value].approved
  {
    if base.Some? {
      ReadsAgree(plans, d.pr, base, exact);
      assert Matches(plans[base.value], d.pr.base);
    }
  }
}
