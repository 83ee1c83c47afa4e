/** Who may do what to whom: scopes, suspension, reports and the removal of items. */
module Moderation {
  import opened Wrappers

  type AccountId = nat
  type ItemId = nat
  type ReportId = nat

  datatype Scope = Submit | Upload | Review | Admin | Root
  datatype Kind = DatasetItem | PartItem | UploadItem
  datatype Target = OnAccount(account: AccountId) | OnItem(item: ItemId)
  datatype Action = Dismiss | Hide | Remove | Suspend | SuspendRemove

  datatype Account = Account(scopes: set<Scope>, suspended: bool)
  datatype Item = Item(kind: Kind, owner: Option<AccountId>, approved: bool, removed: bool)
  datatype Report = Report(openedBy: AccountId, target: Target, outcome: Option<Outcome>)
  datatype Outcome = Outcome(action: Action, resolvedBy: AccountId)

  datatype State = State(
    accounts: map<AccountId, Account>, items: map<ItemId, Item>, reports: map<ReportId, Report>)

  /** The state after a request, and its HTTP status; 500 is an unhandled exception. */
  datatype Reply = Reply(state: State, code: int)

  const OK := 200

  datatype Step =
    | RegisterAccount(a: AccountId)
    | GrantScope(actor: AccountId, a: AccountId, scope: Scope)
    | RevokeScope(actor: AccountId, a: AccountId, scope: Scope)
    | SuspendAccount(actor: AccountId, a: AccountId)
    | RestoreAccount(actor: AccountId, a: AccountId)
    | CreateItem(actor: AccountId, i: ItemId, kind: Kind, gone: bool)
    | AddPart(actor: AccountId, i: ItemId, part: ItemId)
    | SetApproved(actor: AccountId, i: ItemId, approved: bool)
    | DenyItem(actor: AccountId, i: ItemId)
    | DeleteItem(actor: AccountId, i: ItemId)
    | EditItem(actor: AccountId, i: ItemId, approval: Option<bool>, removed: Option<bool>)
    | OpenReport(actor: AccountId, r: ReportId, target: Target)
    | ResolveReport(actor: AccountId, r: ReportId, action: Action)

  // ---------------------------------------------------------------- authority

  predicate HasScope(a: Account, scope: Scope) {
    Root in a.scopes || (Admin in a.scopes && scope != Root) || scope in a.scopes
  }

  predicate Active(s: State, a: AccountId) {
    a in s.accounts && !s.accounts[a].suspended
  }

  predicate Holds(s: State, a: AccountId, scope: Scope) {
    a in s.accounts && HasScope(s.accounts[a], scope)
  }

  predicate IsRoot(s: State, a: AccountId) {
    a in s.accounts && Root in s.accounts[a].scopes
  }

  /** Checks on the acting account: it exists, is not suspended, and has the scope. */
  function Require(s: State, actor: AccountId, scope: Scope): int {
    if actor !in s.accounts then 401
    else if s.accounts[actor].suspended || !HasScope(s.accounts[actor], scope) then 403
    else OK
  }

  predicate CanSuspend(s: State, actor: AccountId, a: AccountId) {
    && Holds(s, actor, Admin)
    && a in s.accounts && actor != a
    && (Holds(s, actor, Root) || !Holds(s, a, Admin))
    && !(Holds(s, actor, Root) && Holds(s, a, Root))
  }

  predicate RemovableBy(s: State, i: ItemId, actor: AccountId)
    requires i in s.items
  {
    s.items[i].owner == Some(actor) || Holds(s, actor, Review)
  }

  predicate VisibleTo(s: State, i: ItemId, viewer: Option<AccountId>)
    requires i in s.items
  {
    var item := s.items[i];
    if item.approved && !item.removed then true
    else if viewer.None? || item.removed then false
    else item.owner == viewer || Holds(s, viewer.get, Review)
  }

  predicate AccountVisibleTo(s: State, a: AccountId, viewer: AccountId)
    requires a in s.accounts
  {
    a == viewer || Holds(s, viewer, Review) || !s.accounts[a].suspended
  }

  // ---------------------------------------------------------------- accounts

  function Refuse(s: State, code: int): Reply {
    Reply(s, code)
  }

  function WithAccount(s: State, a: AccountId, account: Account): State {
    s.(accounts := s.accounts[a := account])
  }

  function Register(s: State, a: AccountId): Reply {
    if a in s.accounts then Refuse(s, 400) else Reply(WithAccount(s, a, Account({}, false)), OK)
  }

  /** Root only changes roots, and not itself; only root changes admins. */
  function ScopeGuard(s: State, actor: AccountId, a: AccountId, scope: Scope): int {
    if Require(s, actor, Admin) != OK then Require(s, actor, Admin)
    else if !Active(s, a) then 404
    else if scope == Root && !IsRoot(s, actor) then 403
    else if scope == Root && a == actor then 403
    else if scope == Admin && !IsRoot(s, actor) then 403
    else OK
  }

  function Grant(s: State, actor: AccountId, a: AccountId, scope: Scope): Reply {
    var code := ScopeGuard(s, actor, a, scope);
    if code != OK then Refuse(s, code)
    else if HasScope(s.accounts[a], scope) then Reply(s, OK)
    else Reply(WithAccount(s, a, s.accounts[a].(scopes := s.accounts[a].scopes + {scope})), OK)
  }

  function Revoke(s: State, actor: AccountId, a: AccountId, scope: Scope): Reply {
    var code := ScopeGuard(s, actor, a, scope);
    if code != OK then Refuse(s, code)
    else Reply(WithAccount(s, a, s.accounts[a].(scopes := s.accounts[a].scopes - {scope})), OK)
  }

  /** Not oneself; and an account with admin authority only by a root. */
  function StandingGuard(s: State, actor: AccountId, a: AccountId): int
    requires a in s.accounts
  {
    if Require(s, actor, Admin) != OK then Require(s, actor, Admin)
    else if a == actor then 403
    else if HasScope(s.accounts[a], Admin) && !HasScope(s.accounts[actor], Root) then 403
    else OK
  }

  function SetSuspended(s: State, actor: AccountId, a: AccountId, suspended: bool): Reply {
    if a !in s.accounts || (suspended && s.accounts[a].suspended) then Refuse(s, 404)
    else if StandingGuard(s, actor, a) != OK then Refuse(s, StandingGuard(s, actor, a))
    else Reply(WithAccount(s, a, s.accounts[a].(suspended := suspended)), OK)
  }

  // ---------------------------------------------------------------- items

  function WithItem(s: State, i: ItemId, item: Item): State {
    s.(items := s.items[i := item])
  }

  function ActorGuard(s: State, actor: AccountId): int {
    if actor !in s.accounts then 401 else if s.accounts[actor].suspended then 403 else OK
  }

  /** What an account with the scope submits is approved at once. Datasets and uploads can be
      created as removed. */
  function Create(s: State, actor: AccountId, i: ItemId, kind: Kind, gone: bool): Reply {
    if ActorGuard(s, actor) != OK then Refuse(s, ActorGuard(s, actor))
    else if i in s.items then Refuse(s, 400)
    else
      var scope := if kind.UploadItem? then Upload else Submit;
      Reply(WithItem(s, i, Item(kind, Some(actor), Holds(s, actor, scope), gone && !kind.PartItem?)), OK)
  }

  function ReviewGuard(s: State, actor: AccountId, i: ItemId): int {
    if Require(s, actor, Review) != OK then Require(s, actor, Review)
    else if i !in s.items then 404
    else OK
  }

  function Approve(s: State, actor: AccountId, i: ItemId, approved: bool): Reply {
    if ReviewGuard(s, actor, i) != OK then Refuse(s, ReviewGuard(s, actor, i))
    else Reply(WithItem(s, i, s.items[i].(approved := approved)), OK)
  }

  function Deny(s: State, actor: AccountId, i: ItemId): Reply {
    if ReviewGuard(s, actor, i) != OK then Refuse(s, ReviewGuard(s, actor, i))
    else Reply(WithItem(s, i, s.items[i].(removed := true)), OK)
  }

  /** Datasets and uploads can be deleted by their owner or a reviewer. */
  function Delete(s: State, actor: AccountId, i: ItemId): Reply {
    if i !in s.items || s.items[i].kind.PartItem? then Refuse(s, 404)
    else if ActorGuard(s, actor) != OK then Refuse(s, ActorGuard(s, actor))
    else if !RemovableBy(s, i, actor) then Refuse(s, 403)
    else Reply(WithItem(s, i, s.items[i].(removed := true)), OK)
  }

  /** Datasets and uploads can be edited by their owner or a reviewer, while they are visible. */
  function EditGuard(s: State, actor: AccountId, i: ItemId): int {
    if i !in s.items || s.items[i].kind.PartItem? then 404
    else if ActorGuard(s, actor) != OK then ActorGuard(s, actor)
    else if !VisibleTo(s, i, Some(actor)) then 404
    else if !RemovableBy(s, i, actor) then 401
    else OK
  }

  function Edit(s: State, actor: AccountId, i: ItemId, approved: Option<bool>, removed: Option<bool>): Reply {
    if EditGuard(s, actor, i) != OK then Refuse(s, EditGuard(s, actor, i))
    else
      var item := s.items[i];
      Reply(WithItem(s, i, item.(
              approved := if approved.Some? then approved.get else item.approved,
              removed := if removed.Some? then removed.get else item.removed)), OK)
  }

  /** Editing an upload with a part slug that is new to the dataset makes that part; it has no
      owner and is not approved. */
  function EditWithPart(s: State, actor: AccountId, i: ItemId, part: ItemId): Reply {
    if EditGuard(s, actor, i) != OK then Refuse(s, EditGuard(s, actor, i))
    else if !s.items[i].kind.UploadItem? then Refuse(s, 422)
    else if part in s.items then Reply(s, OK)
    else Reply(WithItem(s, part, Item(PartItem, None, false, false)), OK)
  }

  // ---------------------------------------------------------------- reports

  function Open(s: State, actor: AccountId, r: ReportId, target: Target): Reply {
    if ActorGuard(s, actor) != OK then Refuse(s, ActorGuard(s, actor))
    else if r in s.reports then Refuse(s, 400)
    else if !TargetVisible(s, actor, target) then Refuse(s, 404)
    else Reply(s.(reports := s.reports[r := Report(actor, target, None)]), if Nameless(s, target) then 500 else OK)
  }

  /** The report is stored, but the answer shows its target, which fails for a part without owner. */
  predicate Nameless(s: State, target: Target) {
    && target.OnItem? && target.item in s.items
    && s.items[target.item].kind.PartItem? && s.items[target.item].owner.None?
  }

  predicate TargetVisible(s: State, actor: AccountId, target: Target) {
    match target
    case OnAccount(a) => a in s.accounts && AccountVisibleTo(s, a, actor)
    case OnItem(i) => i in s.items && VisibleTo(s, i, Some(actor))
  }

  /** The account a report is about: the target itself, or the owner of the item, if any. */
  function Reported(s: State, r: Report): Option<AccountId> {
    match r.target
    case OnAccount(a) => Some(a)
    case OnItem(i) => if i in s.items then s.items[i].owner else None
  }

  predicate Suspends(action: Action) {
    action.Suspend? || action.SuspendRemove?
  }

  /** `action_allowed`, in the order of its checks. The error for an item without an owner is
      made but not raised, so the check on whom one can suspend runs into it. */
  function ActionAllowed(s: State, actor: AccountId, r: Report, action: Action): int {
    var reported := Reported(s, r);
    if !Holds(s, actor, Review) then 403
    else if Suspends(action) && !Holds(s, actor, Admin) then 403
    else if Suspends(action) && reported.None? then 500
    else if Suspends(action) && !CanSuspend(s, actor, reported.get) then 403
    else if reported == Some(actor) && !Holds(s, actor, Root) then 403
    else if r.outcome.Some? then 400
    else if (action.Hide? || action.Remove?) && r.target.OnAccount? then 422
    else OK
  }

  /** A report must exist and be visible: to reviewers, and to whoever opened it. */
  function ReportGuard(s: State, actor: AccountId, r: ReportId): int {
    if ActorGuard(s, actor) != OK then ActorGuard(s, actor)
    else if r !in s.reports then if HasScope(s.accounts[actor], Review) then 404 else 403
    else if s.reports[r].openedBy != actor && !HasScope(s.accounts[actor], Review) then 403
    else OK
  }

  /** What an action is for, whatever steps bring it about. */
  function Affected(s: State, r: Report, action: Action): State {
    var reported := Reported(s, r);
    State(
      map a | a in s.accounts ::
        if Suspends(action) && reported == Some(a) then s.accounts[a].(suspended := true)
        else s.accounts[a],
      map i | i in s.items ::
        if r.target == OnItem(i) && action.Hide? then s.items[i].(approved := false)
        else if r.target == OnItem(i) && (action.Remove? || action.Suspend?) then s.items[i].(removed := true)
        else if action.SuspendRemove? && reported.Some? && s.items[i].owner == reported then
          s.items[i].(removed := true)
        else s.items[i],
      s.reports)
  }

  /** Accounts and items that are referred to exist. */
  ghost predicate WellFormed(s: State) {
    && (forall i :: i in s.items && s.items[i].owner.Some? ==> s.items[i].owner.get in s.accounts)
    && (forall r :: r in s.reports ==>
          match s.reports[r].target
          case OnAccount(a) => a in s.accounts
          case OnItem(i) => i in s.items)
  }

  function Resolve(s: State, actor: AccountId, r: ReportId, action: Action): Reply {
    if ReportGuard(s, actor, r) != OK then Refuse(s, ReportGuard(s, actor, r))
    else if ActionAllowed(s, actor, s.reports[r], action) != OK then
      Refuse(s, ActionAllowed(s, actor, s.reports[r], action))
    else
      var report := s.reports[r];
      var after := Affected(s, report, action);
      Reply(after.(reports := s.reports[r := report.(outcome := Some(Outcome(action, actor)))]), OK)
  }

  function Apply(s: State, step: Step): Reply {
    match step
    case RegisterAccount(a) => Register(s, a)
    case GrantScope(actor, a, scope) => Grant(s, actor, a, scope)
    case RevokeScope(actor, a, scope) => Revoke(s, actor, a, scope)
    case SuspendAccount(actor, a) => SetSuspended(s, actor, a, true)
    case RestoreAccount(actor, a) => SetSuspended(s, actor, a, false)
    case CreateItem(actor, i, kind, gone) => Create(s, actor, i, kind, gone)
    case AddPart(actor, i, part) => EditWithPart(s, actor, i, part)
    case SetApproved(actor, i, approved) => Approve(s, actor, i, approved)
    case DenyItem(actor, i) => Deny(s, actor, i)
    case DeleteItem(actor, i) => Delete(s, actor, i)
    case EditItem(actor, i, approved, removed) => Edit(s, actor, i, approved, removed)
    case OpenReport(actor, r, target) => Open(s, actor, r, target)
    case ResolveReport(actor, r, action) => Resolve(s, actor, r, action)
  }
}
