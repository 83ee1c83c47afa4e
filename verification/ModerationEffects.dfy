/** What each request needs to be accepted, and what it then changes: that and nothing else. */
module ModerationEffects {
  import opened Wrappers
  import opened Moderation
  import opened ModerationRuns

  // ---------------------------------------------------------------- who may ask for what

  lemma ScopesExactly(s: State, a: AccountId)
    ensures Holds(s, a, Root) <==> IsRoot(s, a)
    ensures IsRoot(s, a) ==> Holds(s, a, Admin)
    ensures Holds(s, a, Admin) ==> Holds(s, a, Review) && Holds(s, a, Submit) && Holds(s, a, Upload)
    ensures a in s.accounts ==> forall scope :: scope in s.accounts[a].scopes ==> Holds(s, a, scope)
    ensures !Holds(s, a, Admin) ==> forall scope :: Holds(s, a, scope) ==> scope in s.accounts[a].scopes
  {
  }

  lemma ReportedExactly(s: State, r: Report, a: AccountId)
    ensures Reported(s, r) == Some(a) <==>
            || r.target == OnAccount(a)
            || exists i :: i in s.items && r.target == OnItem(i) && s.items[i].owner == Some(a)
  {
  }

  predicate ActiveWith(s: State, a: AccountId, scope: Scope) {
    Active(s, a) && Holds(s, a, scope)
  }

  /** Admins give and take scopes; only roots `admin` and `root`, the latter not from themselves. */
  predicate MayScope(s: State, actor: AccountId, a: AccountId, scope: Scope) {
    && ActiveWith(s, actor, Admin) && Active(s, a)
    && (scope in {Admin, Root} ==> IsRoot(s, actor)) && (scope == Root ==> actor != a)
  }

  /** Owners and reviewers edit datasets and uploads that are not removed. */
  predicate MayEdit(s: State, actor: AccountId, i: ItemId) {
    && Active(s, actor) && i in s.items && !s.items[i].kind.PartItem? && !s.items[i].removed
    && (s.items[i].owner == Some(actor) || Holds(s, actor, Review))
  }

  predicate MaySee(s: State, actor: AccountId, target: Target) {
    match target
    case OnAccount(a) => a in s.accounts && (a == actor || Holds(s, actor, Review) || !s.accounts[a].suspended)
    case OnItem(i) =>
      && i in s.items && !s.items[i].removed
      && (s.items[i].approved || s.items[i].owner == Some(actor) || Holds(s, actor, Review))
  }

  /** Reviewers resolve open reports; admins by suspension, of others than themselves, of admins
      only if they are root, and never of roots; reports about oneself are for roots. */
  predicate MayResolve(s: State, actor: AccountId, r: ReportId, action: Action) {
    && ActiveWith(s, actor, Review) && r in s.reports && s.reports[r].outcome == None
    && (Reported(s, s.reports[r]) == Some(actor) ==> IsRoot(s, actor))
    && (action in {Hide, Remove} ==> s.reports[r].target.OnItem?)
    && (action in {Suspend, SuspendRemove} ==>
          && Reported(s, s.reports[r]).Some?
          && var a := Reported(s, s.reports[r]).get;
             Suspender(s, actor, a) && a in s.accounts && !IsRoot(s, a))
  }

  predicate Permitted(s: State, step: Step) {
    match step
    case RegisterAccount(a) => a !in s.accounts
    case GrantScope(actor, a, scope) => MayScope(s, actor, a, scope)
    case RevokeScope(actor, a, scope) => MayScope(s, actor, a, scope)
    case SuspendAccount(actor, a) => Active(s, a) && Suspender(s, actor, a)
    case RestoreAccount(actor, a) => a in s.accounts && Suspender(s, actor, a)
    case CreateItem(actor, i, _, _) => Active(s, actor) && i !in s.items
    case AddPart(actor, i, _) => MayEdit(s, actor, i) && s.items[i].kind.UploadItem?
    case SetApproved(actor, i, _) => ActiveWith(s, actor, Review) && i in s.items
    case DenyItem(actor, i) => ActiveWith(s, actor, Review) && i in s.items
    case DeleteItem(actor, i) =>
      && Active(s, actor) && i in s.items && !s.items[i].kind.PartItem?
      && (s.items[i].owner == Some(actor) || Holds(s, actor, Review))
    case EditItem(actor, i, _, _) => MayEdit(s, actor, i)
    case OpenReport(actor, r, target) =>
      && Active(s, actor) && r !in s.reports && MaySee(s, actor, target)
      && !(target.OnItem? && s.items[target.item].kind.PartItem? && s.items[target.item].owner == None)
    case ResolveReport(actor, r, action) => MayResolve(s, actor, r, action)
  }

  lemma AcceptedExactly(s: State, step: Step)
    ensures Apply(s, step).code == OK <==> Permitted(s, step)
    ensures step.RegisterAccount? && !Permitted(s, step) ==> Apply(s, step).code == 400
  {
    match step
    case ResolveReport(actor, r, action) => ResolvedExactly(s, actor, r, action);
    case SuspendAccount(actor, a) => ScopesExactly(s, actor);
    case RestoreAccount(actor, a) => ScopesExactly(s, actor);
    case _ =>
  }

  lemma ResolvedExactly(s: State, actor: AccountId, r: ReportId, action: Action)
    ensures Resolve(s, actor, r, action).code == OK <==> MayResolve(s, actor, r, action)
  {
    ScopesExactly(s, actor);
    if r in s.reports && Reported(s, s.reports[r]).Some? {
      ScopesExactly(s, Reported(s, s.reports[r]).get);
    }
  }

  /** Why a reviewer's resolution is refused: a report that is resolved already, an action that its
      target does not have, or no permission; each only when the ones before it do not apply. */
  lemma RefusalsExactly(s: State, actor: AccountId, r: ReportId, action: Action)
    requires ActiveWith(s, actor, Review) && r in s.reports
    ensures var code, report := Apply(s, ResolveReport(actor, r, action)).code, s.reports[r];
            var mayNot :=
              || (Suspends(action) && !Holds(s, actor, Admin))
              || (Suspends(action) && Reported(s, report).Some? && !CanSuspend(s, actor, Reported(s, report).get))
              || (!Suspends(action) && Reported(s, report) == Some(actor) && !IsRoot(s, actor));
            && (code == 403 <==> mayNot)
            && (code == 400 <==> !mayNot && code != 500 && report.outcome.Some?)
            && (code == 422 <==>
                  !mayNot && report.outcome.None? && action in {Hide, Remove} && report.target.OnAccount?)
  {
  }

  /** Whom one can suspend: not oneself, no root, and an admin only as a root. */
  lemma CanSuspendExactly(s: State, actor: AccountId, a: AccountId)
    ensures CanSuspend(s, actor, a) <==>
            && Holds(s, actor, Admin) && a in s.accounts && actor != a && !IsRoot(s, a)
            && (Holds(s, a, Admin) ==> IsRoot(s, actor))
  {
  }

  /** What the request names is not there, for some requests also if it may not be seen. */
  predicate Missing(s: State, step: Step) {
    match step
    case RegisterAccount(_) => false
    case GrantScope(_, a, _) => !Active(s, a)
    case RevokeScope(_, a, _) => !Active(s, a)
    case SuspendAccount(_, a) => !Active(s, a)
    case RestoreAccount(_, a) => a !in s.accounts
    case CreateItem(_, _, _, _) => false
    case AddPart(_, i, _) => i !in s.items || s.items[i].kind == PartItem
    case SetApproved(_, i, _) => i !in s.items
    case DenyItem(_, i) => i !in s.items
    case DeleteItem(_, i) => i !in s.items || s.items[i].kind == PartItem
    case EditItem(_, i, _, _) => i !in s.items || s.items[i].kind == PartItem
    case OpenReport(actor, r, target) => r !in s.reports && !MaySee(s, actor, target)
    case ResolveReport(_, r, _) => r !in s.reports
  }

  /** Requests by account and by name of a dataset or upload look for what they name first. */
  predicate NameFirst(step: Step) {
    step.SuspendAccount? || step.RestoreAccount? || step.AddPart? || step.EditItem? || step.DeleteItem?
  }

  /** How an unknown account is answered, a suspended one, one without the scope, and one that has
      it but names what is not there. */
  lemma StatusExactly(s: State, step: Step)
    requires ActorOf(step).Some?
    ensures var actor, code := ActorOf(step).get, Apply(s, step).code;
            var scope := if step.SetApproved? || step.DenyItem? || step.ResolveReport? then Some(Review)
                         else if step.GrantScope? || step.RevokeScope? || step.SuspendAccount? || step.RestoreAccount?
                         then Some(Admin) else None;
            && (NameFirst(step) && Missing(s, step) ==> code == 404)
            && (!(NameFirst(step) && Missing(s, step)) ==>
                  if actor !in s.accounts then code == 401
                  else if s.accounts[actor].suspended then code == 403
                  else if scope.Some? && !Holds(s, actor, scope.get) then code == 403
                  else Missing(s, step) ==> code == 404)
  {
  }

  /** The other refusals, of an active account with the scope, of what is there: what exists already
      is 400, an upload's field given for a dataset 422, an invisible item 404; what is not one's own
      to edit is 401, and otherwise it is 403. */
  lemma OtherRefusals(s: State, step: Step)
    requires ActorOf(step).Some? && Active(s, ActorOf(step).get) && !Missing(s, step) && !Permitted(s, step)
    ensures var actor, code := ActorOf(step).get, Apply(s, step).code;
            match step
            case CreateItem(_, _, _, _) => code == 400
            case OpenReport(_, r, _) => code == if r in s.reports then 400 else 500
            case DeleteItem(_, _) => code == 403
            case GrantScope(_, _, _) => code == 403
            case RevokeScope(_, _, _) => code == 403
            case SuspendAccount(_, _) => code == 403
            case RestoreAccount(_, _) => code == 403
            case EditItem(_, i, _, _) => code == if VisibleTo(s, i, Some(actor)) then 401 else 404
            case AddPart(_, i, _) =>
              code == if !VisibleTo(s, i, Some(actor)) then 404 else if MayEdit(s, actor, i) then 422 else 401
            case _ => true
  {
    AcceptedExactly(s, step);
  }

  // ---------------------------------------------------------------- what it changes

  /** What an accepted request makes of an item's approval, if anything. */
  function AskedApproval(s: State, step: Step, i: ItemId): Option<bool> {
    match step
    case SetApproved(_, j, approved) => if j == i then Some(approved) else None
    case EditItem(_, j, approved, _) => if j == i then approved else None
    case ResolveReport(_, r, action) =>
      if action == Hide && r in s.reports && s.reports[r].target == OnItem(i) then Some(false) else None
    case _ => None
  }

  /** The item that an accepted request makes, if it makes this one. */
  function Made(s: State, step: Step, i: ItemId): Option<Item> {
    match step
    case CreateItem(actor, j, kind, gone) =>
      if j != i then None
      else
        var trusted := Holds(s, actor, if kind == UploadItem then Upload else Submit);
        Some(Item(kind, Some(actor), trusted, gone && kind != PartItem))
    case AddPart(_, _, part) => if part == i then Some(Item(PartItem, None, false, false)) else None
    case _ => None
  }

  /** Of an item, an accepted request changes the approval it asks for and, if it is one that
      removes it, the removal; a refused one nothing. Only creation makes items. */
  lemma ItemExactly(s: State, step: Step, i: ItemId)
    ensures var after, ok := Apply(s, step).state.items, Apply(s, step).code == OK;
            if i in s.items then
              var asked := AskedApproval(s, step, i);
              && i in after && after[i].kind == s.items[i].kind && after[i].owner == s.items[i].owner
              && after[i].approved == (if ok && asked.Some? then asked.get else s.items[i].approved)
              && (after[i].removed <==> s.items[i].removed || (ok && Removes(s, step, i)))
            else
              && (i in after <==> ok && Made(s, step, i).Some?)
              && (i in after ==> after[i] == Made(s, step, i).get)
  {
  }

  predicate SuspendsAccount(s: State, step: Step, a: AccountId) {
    match step
    case SuspendAccount(_, b) => b == a
    case ResolveReport(_, r, action) =>
      action in {Suspend, SuspendRemove} && r in s.reports && Reported(s, s.reports[r]) == Some(a)
    case _ => false
  }

  /** Of an account, an accepted request changes the scope it grants or revokes, and the suspension
      if it suspends or restores it; a refused one nothing. Only registration makes accounts. */
  lemma AccountExactly(s: State, step: Step, a: AccountId)
    ensures var after, ok := Apply(s, step).state.accounts, Apply(s, step).code == OK;
            if a in s.accounts then
              && a in after
              && (after[a].suspended <==>
                    if ok && SuspendsAccount(s, step, a) then true
                    else if ok && step.RestoreAccount? && step.a == a then false
                    else s.accounts[a].suspended)
              && after[a].scopes ==
                 (if ok && step.GrantScope? && step.a == a && !Holds(s, a, step.scope)
                  then s.accounts[a].scopes + {step.scope}
                  else if ok && step.RevokeScope? && step.a == a then s.accounts[a].scopes - {step.scope}
                  else s.accounts[a].scopes)
            else
              && (a in after <==> ok && step == RegisterAccount(a))
              && (a in after ==> after[a] == Account({}, false))
  {
  }

  /** Of a report, an accepted resolution sets the outcome. Only opening makes reports, also where
      the answer then fails. */
  lemma ReportExactly(s: State, step: Step, r: ReportId)
    ensures var after, code := Apply(s, step).state.reports, Apply(s, step).code;
            if r in s.reports then
              && r in after
              && after[r] == (if code == OK && step.ResolveReport? && step.r == r
                              then s.reports[r].(outcome := Some(Outcome(step.action, step.actor)))
                              else s.reports[r])
            else
              && (r in after <==> code in {OK, 500} && step.OpenReport? && step.r == r)
              && (r in after ==> after[r] == Report(step.actor, step.target, None))
  {
  }

  /** Dismissing a report settles it, and changes no account and no item. */
  lemma DismissChangesNothing(s: State, actor: AccountId, r: ReportId)
    ensures var after := Apply(s, ResolveReport(actor, r, Dismiss)).state;
            after.accounts == s.accounts && after.items == s.items
  {
    var step := ResolveReport(actor, r, Dismiss);
    var after := Apply(s, step).state;
    forall a
      ensures a in after.accounts <==> a in s.accounts
      ensures a in s.accounts ==> after.accounts[a] == s.accounts[a]
    {
      AccountExactly(s, step, a);
    }
    forall i
      ensures i in after.items <==> i in s.items
      ensures i in s.items ==> after.items[i] == s.items[i]
    {
      ItemExactly(s, step, i);
    }
  }

  /** What has been granted is held, what has been revoked is not, unless as a part of what is;
      what has been suspended is not active, what has been restored is. */
  lemma TakesEffect(s: State, step: Step)
    requires Apply(s, step).code == OK
    ensures var after := Apply(s, step).state;
            match step
            case GrantScope(_, a, scope) => Holds(after, a, scope)
            case RevokeScope(_, a, scope) => Holds(after, a, scope) ==> Holds(after, a, Admin) && scope != Root
            case SuspendAccount(_, a) => a in after.accounts && !Active(after, a)
            case RestoreAccount(_, a) => Active(after, a)
            case RegisterAccount(a) => Active(after, a)
            case _ => true
  {
    match step
    case RevokeScope(_, a, scope) => ScopesExactly(Apply(s, step).state, a);
    case _ =>
  }

  // ---------------------------------------------------------------- over runs

  predicate RemovedAt(s: State, steps: seq<Step>, k: nat, i: ItemId)
    requires k <= |steps|
  {
    i in Run(s, steps, k).items && Run(s, steps, k).items[i].removed
  }

  /** Request `k` was accepted and removed the item, or made it as removed. */
  predicate Gone(s: State, steps: seq<Step>, k: nat, i: ItemId)
    requires k < |steps|
  {
    var before := Run(s, steps, k);
    && Accepted(s, steps, k)
    && if i in before.items then Removes(before, steps[k], i)
       else Made(before, steps[k], i).Some? && Made(before, steps[k], i).get.removed
  }

  lemma GoneNext(s: State, steps: seq<Step>, k: nat, i: ItemId)
    requires k < |steps|
    ensures RemovedAt(s, steps, k + 1, i) <==> RemovedAt(s, steps, k, i) || Gone(s, steps, k, i)
  {
    ItemExactly(Run(s, steps, k), steps[k], i);
  }

  /** What is set at some moment, and never reset, is found set exactly if it was set before. */
  lemma {:induction false} LatchExactly(flags: seq<bool>, sets: seq<bool>)
    requires |flags| == |sets| + 1 && !flags[0]
    requires forall k :: 0 <= k < |sets| ==> (flags[k + 1] <==> flags[k] || sets[k])
    ensures flags[|sets|] <==> exists k :: 0 <= k < |sets| && sets[k]
    decreases |sets|
  {
    if sets != [] {
      var n := |sets| - 1;
      LatchExactly(flags[..n + 1], sets[..n]);
      assert forall k :: 0 <= k < n ==> sets[..n][k] == sets[k];
    }
  }

  /** An item is found removed exactly when some accepted request before removed it. */
  lemma RemovedExactly(s: State, steps: seq<Step>, n: nat, i: ItemId)
    requires n <= |steps| && !(i in s.items && s.items[i].removed)
    ensures RemovedAt(s, steps, n, i) <==> exists k :: 0 <= k < n && Gone(s, steps, k, i)
  {
    var flags := seq(n + 1, k requires 0 <= k <= n => RemovedAt(s, steps, k, i));
    var sets := seq(n, k requires 0 <= k < n => Gone(s, steps, k, i));
    forall k | 0 <= k < n
      ensures flags[k + 1] <==> flags[k] || sets[k]
    {
      GoneNext(s, steps, k, i);
    }
    LatchExactly(flags, sets);
    assert forall k :: 0 <= k < n ==> sets[k] == Gone(s, steps, k, i);
  }

  /** An item that no accepted request names, as target or through its owner, stays as it is. */
  lemma {:induction false} Untouched(s: State, steps: seq<Step>, n: nat, i: ItemId)
    requires n <= |steps| && i in s.items
    requires forall k :: 0 <= k < n && Accepted(s, steps, k) ==>
               !Removes(Run(s, steps, k), steps[k], i) && AskedApproval(Run(s, steps, k), steps[k], i) == None
    ensures i in Run(s, steps, n).items && Run(s, steps, n).items[i] == s.items[i]
  {
    if n > 0 {
      Untouched(s, steps, n - 1, i);
      ItemExactly(Run(s, steps, n - 1), steps[n - 1], i);
    }
  }
}
