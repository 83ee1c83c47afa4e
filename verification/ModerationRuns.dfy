/** What every sequence of requests keeps. */
module ModerationRuns {
  import opened Wrappers
  import opened Moderation

  function ActorOf(step: Step): Option<AccountId> {
    if step.RegisterAccount? then None else Some(step.actor)
  }

  lemma StepWellFormed(s: State, step: Step)
    requires WellFormed(s)
    ensures WellFormed(Apply(s, step).state)
  {
  }

  /** The state after the first `n` requests. */
  function Run(s: State, steps: seq<Step>, n: nat): State
    requires n <= |steps|
  {
    if n == 0 then s else Apply(Run(s, steps, n - 1), steps[n - 1]).state
  }

  /** What refers to something keeps doing so. */
  lemma {:induction false} RunWellFormed(s: State, steps: seq<Step>, n: nat)
    requires WellFormed(s) && n <= |steps|
    ensures WellFormed(Run(s, steps, n))
  {
    if n > 0 {
      RunWellFormed(s, steps, n - 1);
      var before := Run(s, steps, n - 1);
      StepWellFormed(before, steps[n - 1]);
      assert Run(s, steps, n) == Apply(before, steps[n - 1]).state;
    }
  }

  predicate Accepted(s: State, steps: seq<Step>, k: nat)
    requires k < |steps|
  {
    Apply(Run(s, steps, k), steps[k]).code == OK
  }

  // ---------------------------------------------------------------- a root always remains

  ghost predicate HasActiveRoot(s: State) {
    exists a :: IsRoot(s, a) && Active(s, a)
  }

  /** Whoever takes a root down is itself an unsuspended root, and stays one. */
  lemma RootStays(s: State, step: Step, a: AccountId)
    requires IsRoot(s, a) && Active(s, a)
    ensures var after := Apply(s, step).state;
            || (IsRoot(after, a) && Active(after, a))
            || (ActorOf(step).Some? && IsRoot(after, ActorOf(step).get) && Active(after, ActorOf(step).get))
  {
  }

  /** Nobody becomes an unsuspended root but through one. */
  lemma RootAppears(s: State, step: Step, a: AccountId)
    requires IsRoot(Apply(s, step).state, a) && Active(Apply(s, step).state, a)
    ensures || (IsRoot(s, a) && Active(s, a))
            || (ActorOf(step).Some? && IsRoot(s, ActorOf(step).get) && Active(s, ActorOf(step).get))
  {
  }

  /** At every moment of a run there is an unsuspended root exactly when there was one at first. */
  lemma {:induction false} RootRemains(s: State, steps: seq<Step>, n: nat)
    requires n <= |steps|
    ensures HasActiveRoot(Run(s, steps, n)) <==> HasActiveRoot(s)
  {
    if n > 0 {
      RootRemains(s, steps, n - 1);
      var before, after := Run(s, steps, n - 1), Run(s, steps, n);
      if a :| IsRoot(before, a) && Active(before, a) {
        RootStays(before, steps[n - 1], a);
      }
      if a :| IsRoot(after, a) && Active(after, a) {
        RootAppears(before, steps[n - 1], a);
      }
    }
  }

  // ---------------------------------------------------------------- authority comes from root

  /** The account holds `admin` as before, and `root`, and if it does its suspension is as before. */
  ghost predicate SameStanding(s: State, after: State, a: AccountId) {
    && (IsRoot(s, a) <==> IsRoot(after, a))
    && ((a in s.accounts && Admin in s.accounts[a].scopes)
        <==> (a in after.accounts && Admin in after.accounts[a].scopes))
    && (Holds(s, a, Admin) ==> (Active(s, a) <==> Active(after, a)))
  }

  lemma StandingKept(s: State, step: Step, a: AccountId)
    requires (ActorOf(step).Some? ==> !IsRoot(s, ActorOf(step).get))
    ensures SameStanding(s, Apply(s, step).state, a)
  {
  }

  ghost predicate NoRootActs(s: State, steps: seq<Step>)
  {
    forall k :: 0 <= k < |steps| && ActorOf(steps[k]).Some? ==> !IsRoot(Run(s, steps, k), ActorOf(steps[k]).get)
  }

  lemma {:induction false} AuthorityKept(s: State, steps: seq<Step>, n: nat, a: AccountId)
    requires NoRootActs(s, steps) && n <= |steps|
    ensures SameStanding(s, Run(s, steps, n), a)
  {
    if n > 0 {
      AuthorityKept(s, steps, n - 1, a);
      StandingKept(Run(s, steps, n - 1), steps[n - 1], a);
    }
  }

  // ---------------------------------------------------------------- the suspended have no part

  lemma SuspendedPowerless(s: State, step: Step)
    requires ActorOf(step).Some? && !Active(s, ActorOf(step).get)
    ensures Apply(s, step).state == s && Apply(s, step).code != OK
  {
  }

  /** The request is one that could make this account active. */
  predicate Activates(step: Step, a: AccountId) {
    match step
    case RegisterAccount(b) => b == a
    case RestoreAccount(_, b) => b == a
    case _ => false
  }

  lemma StaysInactive(s: State, step: Step, a: AccountId)
    requires !Active(s, a) && !Activates(step, a)
    ensures !Active(Apply(s, step).state, a)
  {
  }

  /** The first `n` requests without those of this account. */
  function Others(steps: seq<Step>, a: AccountId, n: nat): (r: seq<Step>)
    requires n <= |steps|
  {
    if n == 0 then []
    else
      var before := Others(steps, a, n - 1);
      if ActorOf(steps[n - 1]) == Some(a) then before else before + [steps[n - 1]]
  }

  lemma {:induction false} RunAgrees(s: State, xs: seq<Step>, ys: seq<Step>, n: nat)
    requires n <= |xs| && n <= |ys| && forall k :: 0 <= k < n ==> xs[k] == ys[k]
    ensures Run(s, xs, n) == Run(s, ys, n)
  {
    if n > 0 {
      RunAgrees(s, xs, ys, n - 1);
    }
  }

  /** What an account asks for while it is suspended could as well not have been asked. */
  lemma {:induction false} StruckOut(s: State, steps: seq<Step>, a: AccountId, n: nat)
    requires n <= |steps| && !Active(s, a)
    requires forall k :: 0 <= k < n ==> !Activates(steps[k], a)
    ensures !Active(Run(s, steps, n), a)
    ensures Run(s, Others(steps, a, n), |Others(steps, a, n)|) == Run(s, steps, n)
  {
    if n > 0 {
      StruckOut(s, steps, a, n - 1);
      StaysInactive(Run(s, steps, n - 1), steps[n - 1], a);
      if ActorOf(steps[n - 1]) == Some(a) {
        SuspendedPowerless(Run(s, steps, n - 1), steps[n - 1]);
      } else {
        RunAgrees(s, Others(steps, a, n), Others(steps, a, n - 1), |Others(steps, a, n - 1)|);
      }
    }
  }

  // ---------------------------------------------------------------- suspension

  /** Who may have suspended whom: an active admin, not itself; an account with admin authority
      only a root; and a root not by a report. */
  predicate ProperSuspension(s: State, step: Step, a: AccountId) {
    match step
    case SuspendAccount(who, b) => b == a && Suspender(s, who, a)
    case ResolveReport(who, r, action) =>
      && r in s.reports && Suspends(action) && Reported(s, s.reports[r]) == Some(a)
      && Suspender(s, who, a) && !IsRoot(s, a)
    case _ => false
  }

  predicate Suspender(s: State, actor: AccountId, a: AccountId) {
    Active(s, actor) && Holds(s, actor, Admin) && actor != a && (Holds(s, a, Admin) ==> IsRoot(s, actor))
  }

  lemma SuspensionProper(s: State, step: Step, a: AccountId)
    requires Active(s, a) && !Active(Apply(s, step).state, a)
    ensures ProperSuspension(s, step, a) && Apply(s, step).code == OK
  {
  }

  /** Whoever is found suspended was suspended properly, at some moment of the run. */
  lemma {:induction false} SuspensionTraced(s: State, steps: seq<Step>, n: nat, a: AccountId)
    requires n <= |steps| && Active(s, a) && !Active(Run(s, steps, n), a)
    ensures exists k :: 0 <= k < n && Accepted(s, steps, k) && ProperSuspension(Run(s, steps, k), steps[k], a)
  {
    if Active(Run(s, steps, n - 1), a) {
      SuspensionProper(Run(s, steps, n - 1), steps[n - 1], a);
      assert Accepted(s, steps, n - 1);
    } else {
      SuspensionTraced(s, steps, n - 1, a);
    }
  }

  // ---------------------------------------------------------------- removal and resolution last

  predicate ItemLasts(item: Item, after: Item) {
    after.kind == item.kind && after.owner == item.owner && (item.removed ==> after.removed)
  }

  predicate ReportLasts(r: Report, after: Report) {
    after.target == r.target && after.openedBy == r.openedBy && (r.outcome.Some? ==> after == r)
  }

  lemma StepItem(s: State, step: Step, i: ItemId)
    requires i in s.items
    ensures i in Apply(s, step).state.items && ItemLasts(s.items[i], Apply(s, step).state.items[i])
  {
  }

  lemma StepReport(s: State, step: Step, r: ReportId)
    requires r in s.reports
    ensures r in Apply(s, step).state.reports && ReportLasts(s.reports[r], Apply(s, step).state.reports[r])
  {
  }

  lemma {:induction false} ItemKept(s: State, steps: seq<Step>, k: nat, n: nat, i: ItemId)
    requires k <= n <= |steps| && i in Run(s, steps, k).items
    ensures i in Run(s, steps, n).items && ItemLasts(Run(s, steps, k).items[i], Run(s, steps, n).items[i])
    decreases n
  {
    if k < n {
      ItemKept(s, steps, k, n - 1, i);
      StepItem(Run(s, steps, n - 1), steps[n - 1], i);
    }
  }

  lemma {:induction false} ReportKept(s: State, steps: seq<Step>, k: nat, n: nat, r: ReportId)
    requires k <= n <= |steps| && r in Run(s, steps, k).reports
    ensures r in Run(s, steps, n).reports && ReportLasts(Run(s, steps, k).reports[r], Run(s, steps, n).reports[r])
    decreases n
  {
    if k < n {
      ReportKept(s, steps, k, n - 1, r);
      StepReport(Run(s, steps, n - 1), steps[n - 1], r);
    }
  }

  /** `visible_to` says no to everybody: to its owner, to reviewers, to roots. */
  ghost predicate Invisible(s: State, i: ItemId) {
    i in s.items && forall viewer :: !VisibleTo(s, i, viewer)
  }

  /** The request is one that removes this item. */
  predicate Removes(s: State, step: Step, i: ItemId) {
    match step
    case DenyItem(_, j) => j == i
    case DeleteItem(_, j) => j == i
    case EditItem(_, j, _, removed) => j == i && removed == Some(true)
    case ResolveReport(_, r, action) =>
      r in s.reports && i in s.items &&
      (match action
       case Remove => s.reports[r].target == OnItem(i)
       case Suspend => s.reports[r].target == OnItem(i)
       case SuspendRemove => s.items[i].owner.Some? && Reported(s, s.reports[r]) == s.items[i].owner
       case _ => false)
    case _ => false
  }

  lemma RemovesAtOnce(s: State, step: Step, i: ItemId)
    requires Removes(s, step, i) && Apply(s, step).code == OK
    ensures i in Apply(s, step).state.items && Apply(s, step).state.items[i].removed
  {
  }

  /** A removed item never becomes visible again. */
  lemma RemovalLasts(s: State, steps: seq<Step>, k: nat, n: nat, i: ItemId)
    requires k <= n <= |steps|
    requires i in Run(s, steps, k).items && Run(s, steps, k).items[i].removed
    ensures Invisible(Run(s, steps, n), i)
  {
    ItemKept(s, steps, k, n, i);
  }

  /** Once a request has removed an item, by whichever route, it is never visible again. */
  lemma RequestedRemovalLasts(s: State, steps: seq<Step>, k: nat, n: nat, i: ItemId)
    requires k < n <= |steps| && Accepted(s, steps, k) && Removes(Run(s, steps, k), steps[k], i)
    ensures Invisible(Run(s, steps, n), i)
  {
    RemovedNext(s, steps, k, i);
    RemovalLasts(s, steps, k + 1, n, i);
  }

  lemma RemovedNext(s: State, steps: seq<Step>, k: nat, i: ItemId)
    requires k < |steps| && Accepted(s, steps, k) && Removes(Run(s, steps, k), steps[k], i)
    ensures i in Run(s, steps, k + 1).items && Run(s, steps, k + 1).items[i].removed
  {
    RemovesAtOnce(Run(s, steps, k), steps[k], i);
  }

  lemma ResolvedOnce(s: State, actor: AccountId, r: ReportId, action: Action)
    requires r in s.reports
    ensures s.reports[r].outcome.Some? ==> Apply(s, ResolveReport(actor, r, action)).code != OK
    ensures var reply := Apply(s, ResolveReport(actor, r, action));
            reply.code == OK ==> reply.state.reports[r].outcome == Some(Outcome(action, actor))
  {
  }

  /** A report is resolved at most once, and its outcome is the first one's for good. */
  lemma ResolvedAtMostOnce(
    s: State, steps: seq<Step>, k: nat, n: nat, actor: AccountId, r: ReportId, action: Action)
    requires k < n <= |steps| && Accepted(s, steps, k) && steps[k] == ResolveReport(actor, r, action)
    ensures r in Run(s, steps, n).reports && Run(s, steps, n).reports[r].outcome == Some(Outcome(action, actor))
    ensures n < |steps| && steps[n].ResolveReport? && steps[n].r == r ==> !Accepted(s, steps, n)
  {
    ResolvedOnce(Run(s, steps, k), actor, r, action);
    ReportKept(s, steps, k + 1, n, r);
    if n < |steps| && steps[n].ResolveReport? && steps[n].r == r {
      ResolvedOnce(Run(s, steps, n), steps[n].actor, r, steps[n].action);
    }
  }

  // ---------------------------------------------------------------- what `suspend_remove` leaves

  lemma Cleared(s: State, actor: AccountId, r: ReportId, a: AccountId)
    requires r in s.reports && Reported(s, s.reports[r]) == Some(a)
    requires Apply(s, ResolveReport(actor, r, SuspendRemove)).code == OK
    ensures var after := Apply(s, ResolveReport(actor, r, SuspendRemove)).state;
            a in after.accounts && !Active(after, a) && AllRemoved(after, a)
  {
  }

  ghost predicate AllRemoved(s: State, a: AccountId) {
    forall i :: i in s.items && s.items[i].owner == Some(a) ==> s.items[i].removed
  }

  lemma StaysCleared(s: State, step: Step, a: AccountId)
    requires a in s.accounts && !Active(s, a) && AllRemoved(s, a)
    requires !(step.RestoreAccount? && step.a == a)
    ensures var after := Apply(s, step).state;
            a in after.accounts && !Active(after, a) && AllRemoved(after, a)
  {
    var after := Apply(s, step).state;
    forall i | i in after.items && after.items[i].owner == Some(a)
      ensures after.items[i].removed
    {
      if i in s.items {
        StepItem(s, step, i);
      }
    }
  }

  /** After `suspend_remove`, until someone restores the account, it stays suspended and nothing
      of its is visible; what it had is never visible again, restored or not. */
  lemma {:induction false} SuspendRemoveLasts(
    s: State, steps: seq<Step>, k: nat, n: nat, actor: AccountId, r: ReportId, a: AccountId)
    requires k < n <= |steps|
    requires steps[k] == ResolveReport(actor, r, SuspendRemove) && Accepted(s, steps, k)
    requires Reported(Run(s, steps, k), Run(s, steps, k).reports[r]) == Some(a)
    ensures forall i :: i in Run(s, steps, k).items && Run(s, steps, k).items[i].owner == Some(a) ==>
              Invisible(Run(s, steps, n), i)
    ensures (forall m :: k < m < n ==> !(steps[m].RestoreAccount? && steps[m].a == a)) ==>
              && !Active(Run(s, steps, n), a)
              && forall i :: i in Run(s, steps, n).items && Run(s, steps, n).items[i].owner == Some(a) ==>
                   Invisible(Run(s, steps, n), i)
  {
    forall i | i in Run(s, steps, k).items && Run(s, steps, k).items[i].owner == Some(a)
      ensures Invisible(Run(s, steps, n), i)
    {
      RequestedRemovalLasts(s, steps, k, n, i);
    }
    if forall m :: k < m < n ==> !(steps[m].RestoreAccount? && steps[m].a == a) {
      ClearedUntilRestored(s, steps, k, n, actor, r, a);
    }
  }

  lemma {:induction false} ClearedUntilRestored(
    s: State, steps: seq<Step>, k: nat, n: nat, actor: AccountId, r: ReportId, a: AccountId)
    requires k < n <= |steps|
    requires steps[k] == ResolveReport(actor, r, SuspendRemove) && Accepted(s, steps, k)
    requires Reported(Run(s, steps, k), Run(s, steps, k).reports[r]) == Some(a)
    requires forall m :: k < m < n ==> !(steps[m].RestoreAccount? && steps[m].a == a)
    ensures var after := Run(s, steps, n);
            a in after.accounts && !Active(after, a) && AllRemoved(after, a)
    decreases n
  {
    if n == k + 1 {
      Cleared(Run(s, steps, k), actor, r, a);
    } else {
      ClearedUntilRestored(s, steps, k, n - 1, actor, r, a);
      StaysCleared(Run(s, steps, n - 1), steps[n - 1], a);
    }
  }

  // ---------------------------------------------------------------- what hiding leaves

  /** The value an accepted request assigns to the item's approval, if it assigns one. */
  function Assigned(s: State, step: Step, i: ItemId): Option<bool>
  {
    match step
    case SetApproved(actor, j, approved) =>
      if j == i && ReviewGuard(s, actor, i) == OK then Some(approved) else None
    case EditItem(actor, j, approved, _) =>
      if j == i && EditGuard(s, actor, i) == OK then approved else None
    case ResolveReport(actor, r, action) =>
      if && action.Hide? && ReportGuard(s, actor, r) == OK && s.reports[r].target == OnItem(i)
         && ActionAllowed(s, actor, s.reports[r], action) == OK
      then Some(false) else None
    case _ => None
  }

  lemma StepApproval(s: State, step: Step, i: ItemId)
    requires i in s.items
    ensures i in Apply(s, step).state.items
    ensures Assigned(s, step, i).Some? ==> Apply(s, step).code == OK
    ensures Apply(s, step).state.items[i].approved ==
            if Assigned(s, step, i).Some? then Assigned(s, step, i).get else s.items[i].approved
  {
  }

  /** The values that the first `n` requests assign to the item's approval. */
  function Assignments(s: State, steps: seq<Step>, n: nat, i: ItemId): (r: seq<Option<bool>>)
    requires n <= |steps|
    ensures |r| == n && forall k :: 0 <= k < n ==> r[k] == Assigned(Run(s, steps, k), steps[k], i)
  {
    if n == 0 then []
    else Assignments(s, steps, n - 1, i) + [Assigned(Run(s, steps, n - 1), steps[n - 1], i)]
  }

  /** The value turned the flag on, and none after it turned it off. */
  ghost predicate TurnedOn(values: seq<Option<bool>>, k: int) {
    0 <= k < |values| && values[k] == Some(true) && forall m :: k < m < |values| ==> values[m] != Some(false)
  }

  ghost predicate IsOn(values: seq<Option<bool>>) {
    exists k :: TurnedOn(values, k)
  }

  lemma TurnedOnNext(values: seq<Option<bool>>, value: Option<bool>)
    ensures IsOn(values + [value]) <==> if value.Some? then value.get else IsOn(values)
  {
    var more := values + [value];
    assert more[|values|] == value && forall k :: 0 <= k < |values| ==> more[k] == values[k];
    if value == Some(true) {
      assert TurnedOn(more, |values|);
    } else if value == None {
      if k :| TurnedOn(values, k) {
        assert TurnedOn(more, k);
      }
      if k :| TurnedOn(more, k) {
        assert TurnedOn(values, k);
      }
    }
  }

  /** A flag that is off at first and takes the values assigned to it one after the other. */
  lemma {:induction false} FlagExactly(flags: seq<bool>, values: seq<Option<bool>>)
    requires |flags| == |values| + 1 && !flags[0]
    requires forall k :: 0 <= k < |values| ==> flags[k + 1] == if values[k].Some? then values[k].get else flags[k]
    ensures flags[|values|] <==> IsOn(values)
    decreases |values|
  {
    if values != [] {
      var n := |values| - 1;
      FlagExactly(flags[..n + 1], values[..n]);
      TurnedOnNext(values[..n], values[n]);
      assert values == values[..n] + [values[n]];
    }
  }

  predicate ApprovedAt(s: State, steps: seq<Step>, k: nat, i: ItemId)
    requires k <= |steps|
  {
    i in Run(s, steps, k).items && Run(s, steps, k).items[i].approved
  }

  lemma ApprovalNext(s: State, steps: seq<Step>, k: nat, i: ItemId)
    requires k < |steps| && i in s.items
    ensures var value := Assigned(Run(s, steps, k), steps[k], i);
            ApprovedAt(s, steps, k + 1, i) == if value.Some? then value.get else ApprovedAt(s, steps, k, i)
  {
    ItemKept(s, steps, 0, k, i);
    StepApproval(Run(s, steps, k), steps[k], i);
  }

  function Approvals(s: State, steps: seq<Step>, n: nat, i: ItemId): (r: seq<bool>)
    requires n <= |steps|
    ensures |r| == n + 1 && forall k :: 0 <= k <= n ==> r[k] == ApprovedAt(s, steps, k, i)
  {
    (if n == 0 then [] else Approvals(s, steps, n - 1, i)) + [ApprovedAt(s, steps, n, i)]
  }

  lemma ApprovedExactly(s: State, steps: seq<Step>, n: nat, i: ItemId)
    requires n <= |steps| && i in s.items && !s.items[i].approved
    ensures ApprovedAt(s, steps, n, i) <==> IsOn(Assignments(s, steps, n, i))
  {
    var flags, values := Approvals(s, steps, n, i), Assignments(s, steps, n, i);
    forall k | 0 <= k < n
      ensures flags[k + 1] == if values[k].Some? then values[k].get else flags[k]
    {
      ApprovalNext(s, steps, k, i);
    }
    FlagExactly(flags, values);
  }

  /** To whom a hidden item is visible later on: to its owner and the reviewers, and to everybody
      exactly when some request has approved it and none since has taken that back; to nobody once
      it is removed. */
  lemma HiddenExactly(s: State, steps: seq<Step>, n: nat, i: ItemId, viewer: Option<AccountId>)
    requires n <= |steps| && i in s.items && !s.items[i].approved
    ensures i in Run(s, steps, n).items
    ensures var after := Run(s, steps, n);
            VisibleTo(after, i, viewer) <==>
            && !after.items[i].removed
            && (|| (IsOn(Assignments(s, steps, n, i)))
                || (viewer.Some? && (s.items[i].owner == viewer || Holds(after, viewer.get, Review))))
  {
    ApprovedExactly(s, steps, n, i);
    ItemKept(s, steps, 0, n, i);
  }

  /** An active account's own patch of an item it can see, which asks for approval. */
  predicate OwnPatch(s: State, step: Step, i: ItemId)
    requires i in s.items
  {
    && step.EditItem? && step.i == i && step.approval == Some(true)
    && s.items[i].owner == Some(step.actor) && Active(s, step.actor)
    && !s.items[i].kind.PartItem? && !s.items[i].removed
  }

  /** An own patch approves; and without a reviewer there is no other way. */
  lemma ApproverExactly(s: State, step: Step, i: ItemId)
    requires i in s.items
    ensures OwnPatch(s, step, i) ==> Assigned(s, step, i) == Some(true)
    ensures Assigned(s, step, i) == Some(true) && !OwnPatch(s, step, i) ==>
              ActorOf(step).Some? && Holds(s, ActorOf(step).get, Review)
  {
  }

  /** Request `k` is the owner's own patch. */
  predicate Patched(s: State, steps: seq<Step>, k: nat, i: ItemId)
    requires k < |steps|
  {
    i in Run(s, steps, k).items && OwnPatch(Run(s, steps, k), steps[k], i)
  }

  /** Request `k` is a reviewer's, and approves. */
  predicate Reviewed(s: State, steps: seq<Step>, k: nat, i: ItemId)
    requires k < |steps|
  {
    && Assigned(Run(s, steps, k), steps[k], i) == Some(true)
    && ActorOf(steps[k]).Some? && Holds(Run(s, steps, k), ActorOf(steps[k]).get, Review)
  }

  lemma PatchedOrReviewed(s: State, steps: seq<Step>, k: nat, i: ItemId)
    requires k < |steps| && i in s.items
    ensures Assigned(Run(s, steps, k), steps[k], i) == Some(true) <==>
            Patched(s, steps, k, i) || Reviewed(s, steps, k, i)
  {
    ItemKept(s, steps, 0, k, i);
    ApproverExactly(Run(s, steps, k), steps[k], i);
  }

  /** Request `k` is the owner's own patch, and nothing after it took the approval back. */
  ghost predicate PatchStands(s: State, steps: seq<Step>, n: nat, i: ItemId, k: int)
    requires n <= |steps|
  {
    TurnedOn(Assignments(s, steps, n, i), k) && Patched(s, steps, k, i)
  }

  lemma ByPatchOnly(s: State, steps: seq<Step>, n: nat, i: ItemId)
    requires n <= |steps| && i in s.items && forall k :: 0 <= k < n ==> !Reviewed(s, steps, k, i)
    ensures IsOn(Assignments(s, steps, n, i)) <==> exists k :: PatchStands(s, steps, n, i, k)
  {
    var values := Assignments(s, steps, n, i);
    forall k | TurnedOn(values, k)
      ensures PatchStands(s, steps, n, i, k)
    {
      PatchedOrReviewed(s, steps, k, i);
    }
    if k :| PatchStands(s, steps, n, i, k) {
      assert TurnedOn(values, k);
    }
  }

  /** Hiding is a reviewer's to undo. As long as no reviewer approves it, a hidden item is visible
      to everybody again if and only if its owner has patched it so, approval being one of the
      fields that an owner can patch, and nothing since took that back. */
  lemma HidingHoldsExactly(s: State, steps: seq<Step>, n: nat, i: ItemId)
    requires n <= |steps| && i in s.items && !s.items[i].approved
    requires forall k :: 0 <= k < n ==> !Reviewed(s, steps, k, i)
    ensures i in Run(s, steps, n).items
    ensures VisibleTo(Run(s, steps, n), i, None) <==>
            !Run(s, steps, n).items[i].removed && exists k :: PatchStands(s, steps, n, i, k)
  {
    HiddenExactly(s, steps, n, i, None);
    ByPatchOnly(s, steps, n, i);
  }

  // ---------------------------------------------------------------- runs that show what can happen

  /** The instance as it is set up: one account, holding every scope. */
  const INITIAL := State(map[0 := Account({Submit, Upload, Review, Admin, Root}, false)], map[], map[])

  /** Resolution fails with an unhandled exception in exactly one case: an admin asks for a
      suspension over an item nobody owns. */
  lemma CrashesExactly(s: State, actor: AccountId, r: ReportId, action: Action)
    requires WellFormed(s)
    ensures Apply(s, ResolveReport(actor, r, action)).code == 500 <==>
            && Active(s, actor) && Holds(s, actor, Admin)
            && r in s.reports && Suspends(action)
            && s.reports[r].target.OnItem? && s.items[s.reports[r].target.item].owner == None
  {
  }

  /** One way there: an upload is edited to name a new part, the part is reported, and the report
      resolved by suspension. */
  const CRASHING := [
    CreateItem(0, 0, UploadItem, false), AddPart(0, 0, 1), OpenReport(0, 0, OnItem(1)), ResolveReport(0, 0, Suspend)]

  lemma Reaches(s: State, steps: seq<Step>, k: nat, before: State, after: State)
    requires k < |steps| && Run(s, steps, k) == before
    requires WellFormed(before) && Apply(before, steps[k]).state == after
    ensures Run(s, steps, k + 1) == after
  {
  }

  lemma CrashReached()
    ensures Apply(Run(INITIAL, CRASHING, 3), CRASHING[3]).code == 500
  {
    var one := INITIAL.(items := map[0 := Item(UploadItem, Some(0), true, false)]);
    var two := one.(items := one.items[1 := Item(PartItem, None, false, false)]);
    var three := two.(reports := map[0 := Report(0, OnItem(1), None)]);
    Reaches(INITIAL, CRASHING, 0, INITIAL, one);
    Reaches(INITIAL, CRASHING, 1, one, two);
    Reaches(INITIAL, CRASHING, 2, two, three);
    CrashesExactly(three, 0, 0, Suspend);
  }

  /** One way in which a hiding does not hold: root hides a dataset, and its owner, who holds no
      scope at all, patches it back. */
  const UNHIDING := [
    RegisterAccount(1), CreateItem(1, 0, DatasetItem, false), OpenReport(0, 0, OnItem(0)),
    ResolveReport(0, 0, Hide), EditItem(1, 0, Some(true), None)]

  lemma HidingReached() returns (hidden: State)
    ensures hidden == Run(INITIAL, UNHIDING, 4)
    ensures hidden.items == map[0 := Item(DatasetItem, Some(1), false, false)]
    ensures hidden.accounts == INITIAL.accounts[1 := Account({}, false)]
    ensures hidden.reports == map[0 := Report(0, OnItem(0), Some(Outcome(Hide, 0)))]
  {
    var one := INITIAL.(accounts := INITIAL.accounts[1 := Account({}, false)]);
    var two := one.(items := map[0 := Item(DatasetItem, Some(1), false, false)]);
    var three := two.(reports := map[0 := Report(0, OnItem(0), None)]);
    hidden := two.(reports := map[0 := Report(0, OnItem(0), Some(Outcome(Hide, 0)))]);
    Reaches(INITIAL, UNHIDING, 0, INITIAL, one);
    Reaches(INITIAL, UNHIDING, 1, one, two);
    Reaches(INITIAL, UNHIDING, 2, two, three);
    Hid(three, hidden);
    Reaches(INITIAL, UNHIDING, 3, three, hidden);
  }

  lemma Hid(s: State, after: State)
    requires s.accounts == INITIAL.accounts[1 := Account({}, false)]
    requires s.items == map[0 := Item(DatasetItem, Some(1), false, false)]
    requires s.reports == map[0 := Report(0, OnItem(0), None)]
    requires after == s.(reports := map[0 := Report(0, OnItem(0), Some(Outcome(Hide, 0)))])
    ensures WellFormed(s) && Apply(s, ResolveReport(0, 0, Hide)) == Reply(after, OK)
  {
    var affected := Affected(s, s.reports[0], Hide);
    assert affected.accounts == s.accounts && affected.items == s.items;
  }

  lemma Shown(s: State, after: State)
    requires s.accounts == INITIAL.accounts[1 := Account({}, false)]
    requires s.items == map[0 := Item(DatasetItem, Some(1), false, false)] && WellFormed(s)
    requires after == s.(items := map[0 := Item(DatasetItem, Some(1), true, false)])
    ensures Apply(s, EditItem(1, 0, Some(true), None)) == Reply(after, OK)
    ensures !VisibleTo(s, 0, None) && VisibleTo(after, 0, None)
  {
  }

  lemma UnhidingReached() returns (hidden: State, shown: State)
    ensures hidden == Run(INITIAL, UNHIDING, 4) && shown == Run(INITIAL, UNHIDING, 5)
    ensures 0 in hidden.items && !VisibleTo(hidden, 0, None)
    ensures 0 in shown.items && VisibleTo(shown, 0, None)
  {
    hidden := HidingReached();
    shown := hidden.(items := map[0 := Item(DatasetItem, Some(1), true, false)]);
    Shown(hidden, shown);
    Reaches(INITIAL, UNHIDING, 4, hidden, shown);
  }

  // ---------------------------------------------------------------- what one request undoes

  lemma GrantUndone(s: State, actor: AccountId, a: AccountId, scope: Scope)
    requires Apply(s, GrantScope(actor, a, scope)).code == OK && !Holds(s, a, scope)
    ensures Apply(Apply(s, GrantScope(actor, a, scope)).state, RevokeScope(actor, a, scope)) == Reply(s, OK)
  {
  }

  lemma SuspensionUndone(s: State, actor: AccountId, a: AccountId)
    requires Apply(s, SuspendAccount(actor, a)).code == OK
    ensures Apply(Apply(s, SuspendAccount(actor, a)).state, RestoreAccount(actor, a)) == Reply(s, OK)
  {
  }

  /** The request is undone by the next one: a scope that was not held is granted and revoked, or an
      account suspended and restored, by the same account. */
  predicate UndoneNext(s: State, steps: seq<Step>, k: nat)
    requires k + 1 < |steps|
  {
    && Accepted(s, steps, k)
    && match steps[k]
       case GrantScope(actor, a, scope) =>
         !Holds(Run(s, steps, k), a, scope) && steps[k + 1] == RevokeScope(actor, a, scope)
       case SuspendAccount(actor, a) => steps[k + 1] == RestoreAccount(actor, a)
       case _ => false
  }

  /** Such a pair of requests can be struck out: nothing later tells that it was there. */
  lemma {:induction false} PairStruckOut(s: State, steps: seq<Step>, k: nat, n: nat)
    requires k + 2 <= n <= |steps| && UndoneNext(s, steps, k)
    ensures Accepted(s, steps, k + 1)
    ensures Run(s, steps[..k] + steps[k + 2..], n - 2) == Run(s, steps, n)
    decreases n
  {
    var rest := steps[..k] + steps[k + 2..];
    if n > k + 2 {
      PairStruckOut(s, steps, k, n - 1);
      assert rest[n - 3] == steps[n - 1];
    } else {
      RunAgrees(s, rest, steps, k);
      var before := Run(s, steps, k);
      match steps[k]
      case GrantScope(actor, a, scope) => GrantUndone(before, actor, a, scope);
      case SuspendAccount(actor, a) => SuspensionUndone(before, actor, a);
      case _ =>
    }
  }
}
