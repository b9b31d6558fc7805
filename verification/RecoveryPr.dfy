/**
 * The recovery pull-request protocol: any number of webhook handlers, duplicated and
 * interleaved, race on the status of stored recovery plans.
 */
module RecoveryPr {
  import opened Json

  datatype Status = PrOpen | SelectionRequested | DeployPending | OtherStatus(text: string)

  datatype Phase = Failed | Deploying | OtherPhase(text: string)

  // A pull request: everything but the head commit, and the head commit.
  datatype PullRequest = PullRequest(base: string, headSha: string)

  // `trackedAt` is the database time at which the pull request was tracked; `attempt` is the
  // identifier the selection issued, absent for an automatically selected plan.
  datatype Lifecycle = Lifecycle(
    phase: Phase,
    attempt: Option<string>,
    trackedAt: int,
    pr: PullRequest,
    blockers: seq<string>,
    failure: Option<Reason>,
    merge: Option<string>)

  // `approved` says that the plan holds an approved change contract. `epoch` numbers the
  // pr_open periods of the plan; the code stores no such counter, it only serves to say when a
  // decision is stale.
  datatype Plan = Plan(status: Status, selection: Option<string>, lifecycle: Lifecycle, approved: bool, epoch: nat)

  type Plans = map<string, Plan>

  datatype Action = Synchronize | Closed | OtherAction(text: string)

  datatype Delivery = Delivery(action: Action, merged: bool, pr: PullRequest, mergeCommit: string)

  datatype Reason = HeadChanged | ClosedUnmerged | HeadMismatch | BindingUnavailable | ContextIncomplete

  datatype Body = PrMerged(plan: string, commit: string) | DeployRequest(plan: string, commit: string)
    | VerificationFailed(plan: string, reason: Reason)

  // ----- one handler -----

  // Where a handler is: each constructor is a point between two of its database accesses.
  datatype Progress =
    | Arrived
    | HasBase(plan: string, seen: Plan)
    | HasExact(plan: string, seen: Plan)
    | Rejecting(plan: string, seen: Plan, reason: Reason)
    | Merging(plan: string, seen: Plan)
    | Ended(outcome: Outcome)

  datatype Outcome = Untracked | StillOpen | Blocked | Lost | Won

  // What the handler decides once it holds the base record: nothing more to read for a
  // synchronize, an open or an unmerged event.
  function AfterBase(d: Delivery, plan: string, seen: Plan, exact: Option<string>, exactSeen: Plan): Progress {
    if d.action.Synchronize? then Rejecting(plan, seen, HeadChanged)
    else if !d.action.Closed? then Ended(StillOpen)
    else if !d.merged then Rejecting(plan, seen, ClosedUnmerged)
    else if exact.None? then Rejecting(plan, seen, HeadMismatch)
    else HasExact(exact.value, exactSeen)
  }

  function AfterExact(d: Delivery, plan: string, seen: Plan, bound: bool, image: string): Progress {
    if !bound then Rejecting(plan, seen, BindingUnavailable)
    else if seen.lifecycle.blockers != [] then Ended(Blocked)
    else if image == "" || d.mergeCommit == "" || !seen.approved then Rejecting(plan, seen, ContextIncomplete)
    else Merging(plan, seen)
  }

  // What the compare-and-set tests besides the status. The code tests nothing more; the other
  // two are the tests on stored data that would tell one period from the next.
  datatype Test = StatusOnly | SameTracking | SameAttempt

  predicate Passes(test: Test, plan: Plan, seen: Plan) {
    && plan.status.PrOpen?
    && (test.SameTracking? ==> plan.lifecycle.trackedAt == seen.lifecycle.trackedAt)
    && (test.SameAttempt? ==> plan.lifecycle.attempt == seen.lifecycle.attempt)
  }

  predicate Wins(plans: Plans, test: Test, at: Progress)
    requires at.Rejecting? || at.Merging?
  {
    at.plan in plans && Passes(test, plans[at.plan], at.seen)
  }

  // What the winner writes: a rejection also clears the selection.
  function AfterCas(plans: Plans, d: Delivery, at: Progress): Plans
    requires (at.Rejecting? || at.Merging?) && at.plan in plans
  {
    if at.Rejecting? then
      plans[at.plan := plans[at.plan].(
        status := SelectionRequested,
        selection := None,
        lifecycle := at.seen.lifecycle.(phase := Failed, failure := Some(at.reason)))]
    else
      plans[at.plan := plans[at.plan].(
        status := DeployPending,
        lifecycle := at.seen.lifecycle.(phase := Deploying, merge := Some(d.mergeCommit)))]
  }

  function Bodies(d: Delivery, at: Progress): seq<Body>
    requires at.Rejecting? || at.Merging?
  {
    if at.Rejecting? then [VerificationFailed(at.plan, at.reason)]
    else [PrMerged(at.plan, d.mergeCommit), DeployRequest(at.plan, d.mergeCommit)]
  }

  // ----- all handlers together -----

  datatype Handler = Handler(delivery: Delivery, at: Progress)

  // What one committed transaction emitted: by which handler, for which plan and which of
  // its pr_open periods, deciding on a record of which period, and the plan as it was.
  datatype Batch = Batch(handler: nat, plan: string, period: nat, decided: nat, before: Plan, bodies: seq<Body>)

  // `times` and `attempts` are those of all pull requests tracked so far.
  datatype World = World(plans: Plans, handlers: seq<Handler>, log: seq<Batch>, times: set<int>, attempts: set<string>)

  // The test in force, and whether each tracked pull request carries an attempt of its own.
  datatype Rules = Rules(test: Test, freshAttempts: bool)

  predicate Matches(plan: Plan, base: string) {
    plan.status.PrOpen? && plan.lifecycle.pr.base == base
  }

  // A read finds a record only when exactly one row matches.
  ghost predicate ReadsBase(plans: Plans, pr: PullRequest, found: Option<string>) {
    match found
    case Some(key) => key in plans && forall k :: k in plans ==> (Matches(plans[k], pr.base) <==> k == key)
    case None => forall key :: key in plans && Matches(plans[key], pr.base) ==>
      exists other :: other in plans && other != key && Matches(plans[other], pr.base)
  }

  ghost predicate ReadsExact(plans: Plans, pr: PullRequest, found: Option<string>) {
    match found
    case Some(key) => key in plans && forall k :: k in plans ==> (MatchesHead(plans[k], pr) <==> k == key)
    case None => forall key :: key in plans && MatchesHead(plans[key], pr) ==>
      exists other :: other in plans && other != key && MatchesHead(plans[other], pr)
  }

  predicate MatchesHead(plan: Plan, pr: PullRequest) {
    Matches(plan, pr.base) && plan.lifecycle.pr.headSha == pr.headSha
  }

  // A webhook arrives.
  ghost predicate Arrives(w: World, w': World) {
    exists d :: w' == w.(handlers := w.handlers + [Handler(d, Arrived)])
  }

  ghost predicate Moves(w: World, w': World, h: nat, at: Progress) {
    h < |w.handlers| && w' == w.(handlers := w.handlers[h := w.handlers[h].(at := at)])
  }

  ghost predicate LooksUp(w: World, w': World, h: nat) {
    && h < |w.handlers| && w.handlers[h].at.Arrived?
    && exists found ::
         && ReadsBase(w.plans, w.handlers[h].delivery.pr, found)
         && Moves(w, w', h, if found.None? then Ended(Untracked) else HasBase(found.value, w.plans[found.value]))
  }

  ghost predicate Confirms(w: World, w': World, h: nat) {
    && h < |w.handlers| && w.handlers[h].at.HasBase?
    && exists found ::
         && ReadsExact(w.plans, w.handlers[h].delivery.pr, found)
         && Moves(w, w', h,
              AfterBase(w.handlers[h].delivery, w.handlers[h].at.plan, w.handlers[h].at.seen,
                        found, if found.Some? then w.plans[found.value] else w.handlers[h].at.seen))
  }

  ghost predicate Decides(w: World, w': World, h: nat) {
    && h < |w.handlers| && w.handlers[h].at.HasExact?
    && exists bound, image ::
         Moves(w, w', h, AfterExact(w.handlers[h].delivery, w.handlers[h].at.plan, w.handlers[h].at.seen, bound, image))
  }

  // The transaction: compare-and-set, and the outbox of its winner.
  ghost predicate Commits(rules: Rules, w: World, w': World, h: nat) {
    Ready(w, h) && w' == Committed(rules.test, w, h)
  }

  predicate Ready(w: World, h: nat) {
    h < |w.handlers| && (w.handlers[h].at.Rejecting? || w.handlers[h].at.Merging?)
  }

  function Committed(test: Test, w: World, h: nat): World
    requires Ready(w, h)
  {
    var at, d := w.handlers[h].at, w.handlers[h].delivery;
    if !Wins(w.plans, test, at) then
      w.(handlers := w.handlers[h := Handler(d, Ended(Lost))])
    else
      w.(plans := AfterCas(w.plans, d, at),
         handlers := w.handlers[h := Handler(d, Ended(Won))],
         log := w.log + [Batch(h, at.plan, w.plans[at.plan].epoch, at.seen.epoch, w.plans[at.plan], Bodies(d, at))])
  }

  // Everything else that touches a plan. A new plan is not open. Tracking a pull request opens a
  // period at a database time of its own; while a period lasts, what was tracked stays.
  ghost predicate Elsewhere(rules: Rules, w: World, w': World) {
    exists key, plan: Plan :: Changes(w, w', key, plan) && Evolves(rules, w, key, plan)
  }

  predicate Opens(w: World, key: string, plan: Plan) {
    key in w.plans && plan.status.PrOpen? && !w.plans[key].status.PrOpen?
  }

  ghost predicate Changes(w: World, w': World, key: string, plan: Plan) {
    w' == w.(plans := w.plans[key := plan],
             times := if Opens(w, key, plan) then w.times + {plan.lifecycle.trackedAt} else w.times,
             attempts := if Opens(w, key, plan) && plan.lifecycle.attempt.Some? then w.attempts + {plan.lifecycle.attempt.value} else w.attempts)
  }

  ghost predicate Evolves(rules: Rules, w: World, key: string, plan: Plan) {
    if key !in w.plans then !plan.status.PrOpen?
    else if Opens(w, key, plan) then
      && plan.epoch == w.plans[key].epoch + 1 && plan.lifecycle.trackedAt !in w.times
      && (rules.freshAttempts ==> plan.lifecycle.attempt.Some? && plan.lifecycle.attempt.value !in w.attempts)
    else
      && plan.epoch == w.plans[key].epoch
      && (plan.status.PrOpen? ==> SameTracked(plan.lifecycle, w.plans[key].lifecycle))
  }

  predicate SameTracked(a: Lifecycle, b: Lifecycle) {
    a.pr == b.pr && a.trackedAt == b.trackedAt && a.attempt == b.attempt
  }

  ghost predicate HandlerSteps(rules: Rules, w: World, w': World, h: nat) {
    LooksUp(w, w', h) || Confirms(w, w', h) || Decides(w, w', h) || Commits(rules, w, w', h)
  }

  ghost predicate Next(rules: Rules, w: World, w': World) {
    Arrives(w, w') || Elsewhere(rules, w, w') || exists h :: HandlerSteps(rules, w, w', h)
  }

  // What is tracked is on record.
  ghost predicate OnRecord(w: World, lifecycle: Lifecycle) {
    lifecycle.trackedAt in w.times && (lifecycle.attempt.Some? ==> lifecycle.attempt.value in w.attempts)
  }

  ghost predicate OpenOnRecord(w: World) {
    forall key :: key in w.plans && w.plans[key].status.PrOpen? ==> OnRecord(w, w.plans[key].lifecycle)
  }

  // Any finite run from any stored plans and no handlers.
  ghost predicate Run(rules: Rules, ws: seq<World>) {
    && |ws| > 0 && ws[0].handlers == [] && ws[0].log == [] && OpenOnRecord(ws[0])
    && forall i :: 0 <= i < |ws| - 1 ==> Next(rules, ws[i], ws[i + 1])
  }

  // ----- what every run keeps -----

  // Each period of each plan has at most one batch, and a period with one is over.
  ghost predicate OnePerPeriod(w: World) {
    && (forall i, j :: 0 <= i < j < |w.log| && w.log[i].plan == w.log[j].plan ==> w.log[i].period != w.log[j].period)
    && forall b :: b in w.log ==> PeriodOver(w.plans, b)
  }

  ghost predicate PeriodOver(plans: Plans, b: Batch) {
    && b.plan in plans && b.period <= plans[b.plan].epoch
    && (plans[b.plan].status.PrOpen? ==> b.period < plans[b.plan].epoch)
  }

  // Winners and batches correspond one to one; every other handler emitted nothing.
  ghost predicate WinnersEmit(w: World) {
    && (forall b :: b in w.log ==> b.handler < |w.handlers| && w.handlers[b.handler].at == Ended(Won))
    && (forall i, j :: 0 <= i < j < |w.log| ==> w.log[i].handler != w.log[j].handler)
    && (forall h :: 0 <= h < |w.handlers| && w.handlers[h].at == Ended(Won) ==> HasBatch(w.log, h))
  }

  ghost predicate HasBatch(log: seq<Batch>, h: nat) {
    exists b :: b in log && b.handler == h
  }

  // A record still in hand is no newer than the plan. While the plan is open, the record holds
  // what was tracked for this period exactly if it was read in it.
  ghost predicate Faithful(rules: Rules, w: World, key: string, seen: Plan) {
    && key in w.plans && seen.epoch <= w.plans[key].epoch && OnRecord(w, seen.lifecycle)
    && (w.plans[key].status.PrOpen? ==> Tells(rules, w.plans[key], seen))
  }

  ghost predicate Tells(rules: Rules, plan: Plan, seen: Plan) {
    && (seen.epoch == plan.epoch ==> SameTracked(seen.lifecycle, plan.lifecycle))
    && (seen.epoch < plan.epoch ==> seen.lifecycle.trackedAt != plan.lifecycle.trackedAt)
    && (seen.epoch < plan.epoch && rules.freshAttempts ==> seen.lifecycle.attempt != plan.lifecycle.attempt)
  }

  ghost predicate Holds(at: Progress) {
    at.HasBase? || at.HasExact? || at.Rejecting? || at.Merging?
  }

  // A merge is decided only for a merged delivery, on a record with its exact head, no
  // verification blocker and an approved contract.
  ghost predicate Justified(h: Handler) {
    && (h.at.HasExact? || h.at.Merging? ==>
          h.delivery.action.Closed? && h.delivery.merged && h.at.seen.lifecycle.pr == h.delivery.pr)
    && (h.at.Merging? ==> h.delivery.mergeCommit != "" && h.at.seen.lifecycle.blockers == [] && h.at.seen.approved)
  }

  ghost predicate HandlersSound(rules: Rules, w: World) {
    forall h :: h in w.handlers ==> Justified(h) && (Holds(h.at) ==> Faithful(rules, w, h.at.plan, h.at.seen))
  }

  // A batch is one failure, or one merge with its deploy request for a merged delivery.
  ghost predicate Sound(b: Batch, d: Delivery) {
    && b.decided <= b.period && b.before.status.PrOpen? && b.before.epoch == b.period
    && ((exists reason :: b.bodies == [VerificationFailed(b.plan, reason)])
        || (&& b.bodies == [PrMerged(b.plan, d.mergeCommit), DeployRequest(b.plan, d.mergeCommit)]
            && d.merged && d.mergeCommit != ""
            && (b.decided == b.period ==> b.before.lifecycle.pr == d.pr)))
  }

  ghost predicate BatchesSound(w: World) {
    forall b :: b in w.log ==> b.handler < |w.handlers| && Sound(b, w.handlers[b.handler].delivery)
  }

  ghost predicate Inv(rules: Rules, w: World) {
    OnePerPeriod(w) && WinnersEmit(w) && HandlersSound(rules, w) && BatchesSound(w) && OpenOnRecord(w)
  }

  // A handler that only moves, not into a win and not out of one, with a sound position.
  lemma MovePreserves(rules: Rules, w: World, w': World, h: nat, at: Progress)
    requires Inv(rules, w) && Moves(w, w', h, at)
    requires w.handlers[h].at != Ended(Won) && at != Ended(Won)
    requires Justified(w.handlers[h].(at := at)) && (Holds(at) ==> Faithful(rules, w, at.plan, at.seen))
    ensures Inv(rules, w')
  {
    forall g | 0 <= g < |w'.handlers| && w'.handlers[g].at == Ended(Won)
      ensures HasBatch(w'.log, g)
    {
      assert w.handlers[g].at == Ended(Won);
    }
    forall x | x in w'.handlers
      ensures Justified(x) && (Holds(x.at) ==> Faithful(rules, w', x.at.plan, x.at.seen))
    {
      assert x in w.handlers || x == w.handlers[h].(at := at);
    }
  }

  lemma ArrivalPreserves(rules: Rules, w: World, w': World)
    requires Inv(rules, w) && Arrives(w, w')
    ensures Inv(rules, w')
  {
    forall x | x in w'.handlers
      ensures Justified(x) && (Holds(x.at) ==> Faithful(rules, w', x.at.plan, x.at.seen))
    {
      assert x in w.handlers || x.at.Arrived?;
    }
    forall g | 0 <= g < |w'.handlers| && w'.handlers[g].at == Ended(Won)
      ensures HasBatch(w'.log, g)
    {
      assert g < |w.handlers| && w.handlers[g].at == Ended(Won);
    }
  }

  lemma ElsewherePreserves(rules: Rules, w: World, w': World)
    requires Inv(rules, w) && Elsewhere(rules, w, w')
    ensures Inv(rules, w')
  {
    var key, plan: Plan :| Changes(w, w', key, plan) && Evolves(rules, w, key, plan);
    forall b | b in w'.log
      ensures PeriodOver(w'.plans, b)
    {
      assert PeriodOver(w.plans, b);
    }
    forall h | h in w'.handlers && Holds(h.at)
      ensures Faithful(rules, w', h.at.plan, h.at.seen)
    {
      assert Faithful(rules, w, h.at.plan, h.at.seen);
    }
  }

  lemma LookUpPreserves(rules: Rules, w: World, w': World, h: nat)
    requires Inv(rules, w) && LooksUp(w, w', h)
    ensures Inv(rules, w')
  {
    var found :| && ReadsBase(w.plans, w.handlers[h].delivery.pr, found)
                 && Moves(w, w', h, if found.None? then Ended(Untracked) else HasBase(found.value, w.plans[found.value]));
    MovePreserves(rules, w, w', h, if found.None? then Ended(Untracked) else HasBase(found.value, w.plans[found.value]));
  }

  lemma ConfirmPreserves(rules: Rules, w: World, w': World, h: nat)
    requires Inv(rules, w) && Confirms(w, w', h)
    ensures Inv(rules, w')
  {
    var d, at := w.handlers[h].delivery, w.handlers[h].at;
    var found :| && ReadsExact(w.plans, d.pr, found)
                 && Moves(w, w', h, AfterBase(d, at.plan, at.seen, found, if found.Some? then w.plans[found.value] else at.seen));
    assert w.handlers[h] in w.handlers;
    assert found.Some? ==> MatchesHead(w.plans[found.value], d.pr);
    MovePreserves(rules, w, w', h, AfterBase(d, at.plan, at.seen, found, if found.Some? then w.plans[found.value] else at.seen));
  }

  lemma DecisionPreserves(rules: Rules, w: World, w': World, h: nat)
    requires Inv(rules, w) && Decides(w, w', h)
    ensures Inv(rules, w')
  {
    var d, at := w.handlers[h].delivery, w.handlers[h].at;
    var bound, image :| Moves(w, w', h, AfterExact(d, at.plan, at.seen, bound, image));
    assert w.handlers[h] in w.handlers;
    MovePreserves(rules, w, w', h, AfterExact(d, at.plan, at.seen, bound, image));
  }

  // The batch a winning transaction appends is sound and closes its period.
  lemma WinningBatch(rules: Rules, w: World, h: nat)
    requires Inv(rules, w) && Ready(w, h)
    requires Wins(w.plans, rules.test, w.handlers[h].at)
    ensures |Committed(rules.test, w, h).log| == |w.log| + 1
    ensures var b := Committed(rules.test, w, h).log[|w.log|];
            Sound(b, w.handlers[h].delivery) && PeriodOver(Committed(rules.test, w, h).plans, b)
  {
    assert w.handlers[h] in w.handlers;
  }

  lemma WinKeepsPeriods(rules: Rules, w: World, h: nat)
    requires Inv(rules, w) && Ready(w, h)
    requires Wins(w.plans, rules.test, w.handlers[h].at)
    ensures OnePerPeriod(Committed(rules.test, w, h))
  {
    var w' := Committed(rules.test, w, h);
    WinningBatch(rules, w, h);
    var last := w'.log[|w.log|];
    forall b | b in w'.log
      ensures PeriodOver(w'.plans, b)
    {
      assert b in w.log || b == last;
      assert b in w.log ==> PeriodOver(w.plans, b);
    }
    forall i, j | 0 <= i < j < |w'.log| && w'.log[i].plan == w'.log[j].plan
      ensures w'.log[i].period != w'.log[j].period
    {
      assert w'.log[i] == w.log[i] && w.log[i] in w.log;
      assert PeriodOver(w.plans, w.log[i]);
    }
  }

  lemma WinKeepsWinners(rules: Rules, w: World, h: nat)
    requires Inv(rules, w) && Ready(w, h)
    requires Wins(w.plans, rules.test, w.handlers[h].at)
    ensures WinnersEmit(Committed(rules.test, w, h))
  {
    var w' := Committed(rules.test, w, h);
    var last := w'.log[|w.log|];
    assert last in w'.log && last.handler == h;
    forall b | b in w'.log
      ensures b.handler < |w'.handlers| && w'.handlers[b.handler].at == Ended(Won)
    {
      assert b in w.log || b == last;
    }
    forall i, j | 0 <= i < j < |w'.log|
      ensures w'.log[i].handler != w'.log[j].handler
    {
      assert w'.log[i] == w.log[i] && w.log[i] in w.log;
    }
    forall g | 0 <= g < |w'.handlers| && w'.handlers[g].at == Ended(Won)
      ensures HasBatch(w'.log, g)
    {
      if g != h {
        assert w.handlers[g].at == Ended(Won) && HasBatch(w.log, g);
        var b :| b in w.log && b.handler == g;
        assert b in w'.log;
      }
    }
  }

  lemma WinKeepsHandlers(rules: Rules, w: World, h: nat)
    requires Inv(rules, w) && Ready(w, h)
    requires Wins(w.plans, rules.test, w.handlers[h].at)
    ensures HandlersSound(rules, Committed(rules.test, w, h)) && BatchesSound(Committed(rules.test, w, h))
  {
    var w' := Committed(rules.test, w, h);
    WinningBatch(rules, w, h);
    forall x | x in w'.handlers
      ensures Justified(x) && (Holds(x.at) ==> Faithful(rules, w', x.at.plan, x.at.seen))
    {
      assert x in w.handlers || x == Handler(w.handlers[h].delivery, Ended(Won));
    }
    forall b | b in w'.log
      ensures b.handler < |w'.handlers| && Sound(b, w'.handlers[b.handler].delivery)
    {
      assert b in w.log || b == w'.log[|w.log|];
    }
  }

  lemma CommitPreserves(rules: Rules, w: World, w': World, h: nat)
    requires Inv(rules, w) && Commits(rules, w, w', h)
    ensures Inv(rules, w')
  {
    var at := w.handlers[h].at;
    if Wins(w.plans, rules.test, at) {
      WinKeepsPeriods(rules, w, h);
      WinKeepsWinners(rules, w, h);
      WinKeepsHandlers(rules, w, h);
    } else {
      MovePreserves(rules, w, w', h, Ended(Lost));
    }
  }

  lemma StepPreserves(rules: Rules, w: World, w': World)
    requires Inv(rules, w) && Next(rules, w, w')
    ensures Inv(rules, w')
  {
    if Arrives(w, w') {
      ArrivalPreserves(rules, w, w');
    } else if Elsewhere(rules, w, w') {
      ElsewherePreserves(rules, w, w');
    } else {
      var h :| HandlerSteps(rules, w, w', h);
      if LooksUp(w, w', h) {
        LookUpPreserves(rules, w, w', h);
      } else if Confirms(w, w', h) {
        ConfirmPreserves(rules, w, w', h);
      } else if Decides(w, w', h) {
        DecisionPreserves(rules, w, w', h);
      } else {
        CommitPreserves(rules, w, w', h);
      }
    }
  }

  // Over every interleaving: at most one winner per period of a plan, exactly the winners
  // emit, each once, and what they emit is one failure or one justified merge.
  lemma {:induction false} EveryRunIsSafe(rules: Rules, ws: seq<World>, i: nat)
    requires Run(rules, ws) && i < |ws|
    ensures Inv(rules, ws[i])
  {
    if i > 0 {
      EveryRunIsSafe(rules, ws, i - 1);
      assert Next(rules, ws[i - 1], ws[i - 1 + 1]);
      StepPreserves(rules, ws[i - 1], ws[i]);
    }
  }

  // ----- within one pr_open period -----

  // Every record of the plan in hand or decided on stems from period e or a later one.
  ghost predicate NotBefore(w: World, key: string, e: nat) {
    && key in w.plans && w.plans[key].epoch >= e
    && (forall h :: h in w.handlers && Holds(h.at) && h.at.plan == key ==> h.at.seen.epoch >= e)
    && (forall b :: b in w.log && b.plan == key ==> b.decided >= e)
  }

  lemma NotBeforeSteps(rules: Rules, w: World, w': World, h: nat, key: string, e: nat)
    requires NotBefore(w, key, e) && HandlerSteps(rules, w, w', h)
    ensures NotBefore(w', key, e)
  {
    assert w.handlers[h] in w.handlers;
    forall x | x in w'.handlers && Holds(x.at) && x.at.plan == key
      ensures x.at.seen.epoch >= e
    {
      assert x in w.handlers || x == w'.handlers[h];
    }
    forall b | b in w'.log && b.plan == key
      ensures b.decided >= e
    {
      assert b in w.log || b == w'.log[|w.log|];
    }
  }

  lemma NotBeforePreserved(rules: Rules, w: World, w': World, key: string, e: nat)
    requires NotBefore(w, key, e) && Next(rules, w, w')
    ensures NotBefore(w', key, e)
  {
    if Arrives(w, w') {
      forall x | x in w'.handlers && Holds(x.at) && x.at.plan == key
        ensures x.at.seen.epoch >= e
      {
        assert x in w.handlers || x.at.Arrived?;
      }
    } else if !Elsewhere(rules, w, w') {
      var h :| HandlerSteps(rules, w, w', h);
      NotBeforeSteps(rules, w, w', h, key, e);
    }
  }

  lemma {:induction false} NotBeforeAlong(rules: Rules, ws: seq<World>, i: nat, key: string)
    requires Run(rules, ws) && i < |ws| && key in ws[0].plans
    ensures NotBefore(ws[i], key, ws[0].plans[key].epoch)
  {
    if i > 0 {
      NotBeforeAlong(rules, ws, i - 1, key);
      assert Next(rules, ws[i - 1], ws[i - 1 + 1]);
      NotBeforePreserved(rules, ws[i - 1], ws[i], key, ws[0].plans[key].epoch);
    }
  }

  // While a plan is not reopened, all handlers together emit at most one batch for it, by a
  // handler that read a record of this very period; a merge is of the plan's pull request.
  lemma OnePeriod(rules: Rules, ws: seq<World>, i: nat, key: string)
    requires Run(rules, ws) && i < |ws| && key in ws[0].plans && key in ws[i].plans
    requires ws[i].plans[key].epoch == ws[0].plans[key].epoch
    ensures forall b, c :: b in ws[i].log && c in ws[i].log && b.plan == c.plan == key ==> b == c
    ensures forall b :: b in ws[i].log && b.plan == key ==>
      && b.decided == b.period == ws[0].plans[key].epoch
      && b.handler < |ws[i].handlers| && Sound(b, ws[i].handlers[b.handler].delivery)
  {
    EveryRunIsSafe(rules, ws, i);
    NotBeforeAlong(rules, ws, i, key);
    forall b | b in ws[i].log && b.plan == key
      ensures b.decided == b.period == ws[0].plans[key].epoch
    {
      assert PeriodOver(ws[i].plans, b) && Sound(b, ws[i].handlers[b.handler].delivery);
    }
  }

  // ----- across periods -----

  // The batch of a transaction decided on a record of an earlier period.
  ghost predicate StaleWin(test: Test, w: World, h: nat)
    requires Ready(w, h)
  {
    var w' := Committed(test, w, h);
    |w'.log| > |w.log| && w'.log[|w.log|].decided < w'.log[|w.log|].period
  }

  // In every run of the code, a handler wins on a record of an earlier period exactly when the
  // plan is open and was tracked at another time than the record says.
  lemma StaleWinIff(rules: Rules, ws: seq<World>, i: nat, h: nat)
    requires Run(rules, ws) && i < |ws| && Ready(ws[i], h) && rules.test.StatusOnly?
    ensures var w, at := ws[i], ws[i].handlers[h].at;
            && at.plan in w.plans
            && (StaleWin(StatusOnly, w, h) <==>
                  w.plans[at.plan].status.PrOpen? && w.plans[at.plan].lifecycle.trackedAt != at.seen.lifecycle.trackedAt)
  {
    EveryRunIsSafe(rules, ws, i);
    assert ws[i].handlers[h] in ws[i].handlers;
  }

  // Where every tracked pull request carries an attempt of its own, the attempts tell as much.
  lemma StaleWinByAttemptIff(rules: Rules, ws: seq<World>, i: nat, h: nat)
    requires Run(rules, ws) && i < |ws| && Ready(ws[i], h) && rules.test.StatusOnly? && rules.freshAttempts
    ensures var w, at := ws[i], ws[i].handlers[h].at;
            && at.plan in w.plans
            && (StaleWin(StatusOnly, w, h) <==>
                  w.plans[at.plan].status.PrOpen? && w.plans[at.plan].lifecycle.attempt != at.seen.lifecycle.attempt)
  {
    EveryRunIsSafe(rules, ws, i);
    assert ws[i].handlers[h] in ws[i].handlers;
  }

  // Every batch was decided on a record of its own period.
  ghost predicate AllFresh(w: World) {
    forall b :: b in w.log ==> b.decided == b.period
  }

  // The tests that tell periods apart.
  predicate Telling(rules: Rules) {
    rules.test.SameTracking? || (rules.test.SameAttempt? && rules.freshAttempts)
  }

  lemma CommitStaysFresh(rules: Rules, w: World, h: nat)
    requires Telling(rules) && Inv(rules, w) && AllFresh(w) && Ready(w, h)
    ensures AllFresh(Committed(rules.test, w, h))
  {
    var w' := Committed(rules.test, w, h);
    assert w.handlers[h] in w.handlers;
    forall b | b in w'.log
      ensures b.decided == b.period
    {
      assert b in w.log || b == w'.log[|w.log|];
    }
  }

  lemma StepStaysFresh(rules: Rules, w: World, w': World)
    requires Telling(rules) && Inv(rules, w) && AllFresh(w) && Next(rules, w, w')
    ensures AllFresh(w')
  {
    if Arrives(w, w') {
      assert w'.log == w.log;
    } else if Elsewhere(rules, w, w') {
      assert w'.log == w.log;
    } else {
      var h :| HandlerSteps(rules, w, w', h);
      if Commits(rules, w, w', h) {
        CommitStaysFresh(rules, w, h);
      } else {
        assert w'.log == w.log;
      }
    }
  }

  // A compare-and-set that also compares what was tracked never wins on a stale record, over all
  // interleavings.
  lemma {:induction false} TellingTestNeverStale(rules: Rules, ws: seq<World>, i: nat)
    requires Telling(rules) && Run(rules, ws) && i < |ws|
    ensures AllFresh(ws[i])
  {
    if i > 0 {
      TellingTestNeverStale(rules, ws, i - 1);
      EveryRunIsSafe(rules, ws, i - 1);
      assert Next(rules, ws[i - 1], ws[i - 1 + 1]);
      StepStaysFresh(rules, ws[i - 1], ws[i]);
    }
  }

  // So under such a test every deploy request is for the merge of the plan's own pull request.
  lemma TellingTestDeploysOwn(rules: Rules, ws: seq<World>, i: nat, b: Batch, commit: string)
    requires Telling(rules) && Run(rules, ws) && i < |ws| && b in ws[i].log && DeployRequest(b.plan, commit) in b.bodies
    ensures b.handler < |ws[i].handlers|
    ensures var d := ws[i].handlers[b.handler].delivery;
            d.merged && d.mergeCommit == commit && d.pr == b.before.lifecycle.pr
  {
    TellingTestNeverStale(rules, ws, i);
    EveryRunIsSafe(rules, ws, i);
    assert Sound(b, ws[i].handlers[b.handler].delivery);
  }

  function PlanAt(pr: PullRequest, attempt: Option<string>, epoch: nat, status: Status): Plan {
    Plan(status, None, Lifecycle(OtherPhase("pr_open"), attempt, epoch, pr, [], None, None), true, epoch)
  }

  function Ids(attempt: Option<string>): set<string> {
    if attempt.Some? then {attempt.value} else {}
  }

  // The run in which one merge handler pauses while its plan is rejected and reopened.
  function StaleRun(key: string, d: Delivery, later: PullRequest, first: Option<string>, second: Option<string>): seq<World> {
    var one, gone, two := PlanAt(d.pr, first, 1, PrOpen), PlanAt(d.pr, first, 1, SelectionRequested), PlanAt(later, second, 2, PrOpen);
    var merging, times, ids := [Handler(d, Merging(key, one))], {1}, Ids(first);
    [ World(map[key := one], [], [], times, ids),
      World(map[key := one], [Handler(d, Arrived)], [], times, ids),
      World(map[key := one], [Handler(d, HasBase(key, one))], [], times, ids),
      World(map[key := one], [Handler(d, HasExact(key, one))], [], times, ids),
      World(map[key := one], merging, [], times, ids),
      World(map[key := gone], merging, [], times, ids),
      World(map[key := two], merging, [], times + {2}, ids + Ids(second)),
      Committed(StatusOnly, World(map[key := two], merging, [], times + {2}, ids + Ids(second)), 0) ]
  }

  const CODE: Rules := Rules(StatusOnly, false)

  lemma StaleStart(key: string, d: Delivery, later: PullRequest, first: Option<string>, second: Option<string>)
    ensures var ws := StaleRun(key, d, later, first, second); Next(CODE, ws[0], ws[1]) && HandlerSteps(CODE, ws[1], ws[2], 0)
  {
    var ws := StaleRun(key, d, later, first, second);
    assert ws[1] == ws[0].(handlers := ws[0].handlers + [Handler(d, Arrived)]);
    assert ReadsBase(ws[1].plans, d.pr, Some(key));
    assert Moves(ws[1], ws[2], 0, HasBase(key, PlanAt(d.pr, first, 1, PrOpen)));
  }

  lemma StaleDecision(key: string, d: Delivery, later: PullRequest, first: Option<string>, second: Option<string>)
    requires d.action.Closed? && d.merged && d.mergeCommit != ""
    ensures var ws := StaleRun(key, d, later, first, second);
            HandlerSteps(CODE, ws[2], ws[3], 0) && HandlerSteps(CODE, ws[3], ws[4], 0)
  {
    var ws, one := StaleRun(key, d, later, first, second), PlanAt(d.pr, first, 1, PrOpen);
    assert ReadsExact(ws[2].plans, d.pr, Some(key));
    assert Moves(ws[2], ws[3], 0, AfterBase(d, key, one, Some(key), ws[2].plans[key]));
    assert Moves(ws[3], ws[4], 0, AfterExact(d, key, one, true, "image"));
  }

  lemma StaleEnd(key: string, d: Delivery, later: PullRequest, first: Option<string>, second: Option<string>)
    requires d.action.Closed? && d.merged && d.mergeCommit != ""
    ensures var ws := StaleRun(key, d, later, first, second);
            Next(CODE, ws[4], ws[5]) && Next(CODE, ws[5], ws[6]) && HandlerSteps(CODE, ws[6], ws[7], 0)
  {
    var ws := StaleRun(key, d, later, first, second);
    var gone, two := PlanAt(d.pr, first, 1, SelectionRequested), PlanAt(later, second, 2, PrOpen);
    assert Changes(ws[4], ws[5], key, gone) && Evolves(CODE, ws[4], key, gone);
    assert Changes(ws[5], ws[6], key, two) && Evolves(CODE, ws[5], key, two);
    assert Commits(CODE, ws[6], ws[7], 0);
  }

  lemma StaleRunIsRun(key: string, d: Delivery, later: PullRequest, first: Option<string>, second: Option<string>)
    requires d.action.Closed? && d.merged && d.mergeCommit != ""
    ensures Run(CODE, StaleRun(key, d, later, first, second))
  {
    StaleStart(key, d, later, first, second);
    StaleDecision(key, d, later, first, second);
    StaleEnd(key, d, later, first, second);
    var ws := StaleRun(key, d, later, first, second);
    forall i | 0 <= i < |ws| - 1
      ensures Next(CODE, ws[i], ws[i + 1])
    {
      assert i == 0 || i == 1 || i == 2 || i == 3 || i == 4 || i == 5 || i == 6;
    }
  }

  // So a merge of an earlier pull request can take over a later attempt: the deploy request
  // is for a commit of a pull request other than the plan's current one. With equal attempts,
  // as for two automatic selections, comparing attempts would not notice.
  lemma StaleMergeTakesOver(key: string, d: Delivery, later: PullRequest, first: Option<string>, second: Option<string>)
    requires d.action.Closed? && d.merged && d.mergeCommit != "" && later != d.pr
    ensures var ws := StaleRun(key, d, later, first, second);
            && Run(CODE, ws) && |ws[7].log| == 1
            && ws[7].log[0].decided < ws[7].log[0].period
            && DeployRequest(key, d.mergeCommit) in ws[7].log[0].bodies
            && ws[7].log[0].before.lifecycle.pr == later != d.pr
            && (Wins(ws[6].plans, SameAttempt, ws[6].handlers[0].at) <==> first == second)
            && !Wins(ws[6].plans, SameTracking, ws[6].handlers[0].at)
  {
    StaleRunIsRun(key, d, later, first, second);
    var ws := StaleRun(key, d, later, first, second);
    assert ws[7].log[0].bodies[1] == DeployRequest(key, d.mergeCommit);
  }
}
