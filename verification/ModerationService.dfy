/** The requests as they are carried out, step by step, on the tables. */
module ModerationService {
  import opened Wrappers
  import opened Moderation

  const ALL_KINDS: set<Kind> := {UploadItem, PartItem, DatasetItem}

  /** The account's items of these kinds are removed, everything else is as it was. */
  function Cleared(items: map<ItemId, Item>, a: AccountId, kinds: set<Kind>): map<ItemId, Item> {
    map i | i in items ::
      if items[i].owner == Some(a) && items[i].kind in kinds then items[i].(removed := true) else items[i]
  }

  lemma ClearedAll(s: State, r: Report)
    requires WellFormed(s) && Reported(s, r).Some?
    ensures Affected(s, r, SuspendRemove).items == Cleared(s.items, Reported(s, r).get, ALL_KINDS)
  {
    forall i | i in s.items
      ensures s.items[i].kind in ALL_KINDS
    {
      match s.items[i].kind
      case DatasetItem =>
      case PartItem =>
      case UploadItem =>
    }
  }

  lemma AffectedIs(s: State, r: Report, action: Action, accounts: map<AccountId, Account>, items: map<ItemId, Item>)
    requires accounts.Keys == s.accounts.Keys && items.Keys == s.items.Keys
    requires forall a :: a in accounts ==> accounts[a] == Affected(s, r, action).accounts[a]
    requires forall i :: i in items ==> items[i] == Affected(s, r, action).items[i]
    ensures State(accounts, items, s.reports) == Affected(s, r, action)
  {
  }

  class Instance {
    var accounts: map<AccountId, Account>
    var items: map<ItemId, Item>
    var reports: map<ReportId, Report>

    function View(): State
      reads this
    {
      State(accounts, items, reports)
    }

    /** The instance as `ensure_root` leaves it: one account, with every scope. */
    constructor (root: AccountId)
      ensures View() == State(map[root := Account({Submit, Upload, Review, Admin, Root}, false)], map[], map[])
    {
      accounts := map[root := Account({Submit, Upload, Review, Admin, Root}, false)];
      items, reports := map[], map[];
    }

    predicate HasScopeOf(a: AccountId, scope: Scope)
      reads this
    {
      a in accounts && HasScope(accounts[a], scope)
    }

    method RequireActor(actor: AccountId, scope: Scope) returns (code: int)
      ensures code == Require(View(), actor, scope)
    {
      if actor !in accounts {
        return 401;
      }
      if accounts[actor].suspended {
        return 403;
      }
      code := if HasScope(accounts[actor], scope) then OK else 403;
    }

    method GuardScope(actor: AccountId, a: AccountId, scope: Scope) returns (code: int)
      ensures code == ScopeGuard(View(), actor, a, scope)
    {
      code := RequireActor(actor, Admin);
      if code != OK {
        return;
      }
      if a !in accounts || accounts[a].suspended {
        return 404;
      }
      if scope == Root {
        if Root !in accounts[actor].scopes || a == actor {
          return 403;
        }
      } else if scope == Admin && Root !in accounts[actor].scopes {
        return 403;
      }
    }

    method GrantTo(actor: AccountId, a: AccountId, scope: Scope) returns (code: int)
      modifies this`accounts
      ensures Reply(View(), code) == Apply(old(View()), GrantScope(actor, a, scope))
    {
      code := GuardScope(actor, a, scope);
      if code == OK && !HasScope(accounts[a], scope) {
        accounts := accounts[a := accounts[a].(scopes := accounts[a].scopes + {scope})];
      }
    }

    method RevokeFrom(actor: AccountId, a: AccountId, scope: Scope) returns (code: int)
      modifies this`accounts
      ensures Reply(View(), code) == Apply(old(View()), RevokeScope(actor, a, scope))
    {
      code := GuardScope(actor, a, scope);
      if code == OK {
        if scope in accounts[a].scopes {
          accounts := accounts[a := accounts[a].(scopes := accounts[a].scopes - {scope})];
        } else {
          assert accounts[a].scopes - {scope} == accounts[a].scopes;
          assert accounts[a := accounts[a]] == accounts;
        }
      }
    }

    method SetStanding(actor: AccountId, a: AccountId, suspended: bool) returns (code: int)
      modifies this`accounts
      ensures Reply(View(), code) ==
              Apply(old(View()), if suspended then SuspendAccount(actor, a) else RestoreAccount(actor, a))
    {
      if a !in accounts || (suspended && accounts[a].suspended) {
        return 404;
      }
      code := RequireActor(actor, Admin);
      if code != OK {
        return;
      }
      if a == actor {
        return 403;
      }
      if HasScope(accounts[a], Admin) && !HasScope(accounts[actor], Root) {
        return 403;
      }
      accounts := accounts[a := accounts[a].(suspended := suspended)];
    }

    method ApproveItem(actor: AccountId, i: ItemId, approved: bool) returns (code: int)
      modifies this`items
      ensures Reply(View(), code) == Apply(old(View()), SetApproved(actor, i, approved))
    {
      code := RequireActor(actor, Review);
      if code != OK {
        return;
      }
      if i !in items {
        return 404;
      }
      items := items[i := items[i].(approved := approved)];
    }

    method DenyAs(actor: AccountId, i: ItemId) returns (code: int)
      modifies this`items
      ensures Reply(View(), code) == Apply(old(View()), DenyItem(actor, i))
    {
      code := RequireActor(actor, Review);
      if code != OK {
        return;
      }
      if i !in items {
        return 404;
      }
      items := items[i := items[i].(removed := true)];
    }

    method GuardEdit(actor: AccountId, i: ItemId) returns (code: int)
      ensures code == EditGuard(View(), actor, i)
    {
      if i !in items || items[i].kind.PartItem? {
        return 404;
      }
      if actor !in accounts {
        return 401;
      }
      if accounts[actor].suspended {
        return 403;
      }
      if !VisibleTo(View(), i, Some(actor)) {
        return 404;
      }
      if items[i].owner != Some(actor) && !HasScope(accounts[actor], Review) {
        return 401;
      }
      code := OK;
    }

    /** Assign the fields given, one after the other. */
    method EditAs(actor: AccountId, i: ItemId, approved: Option<bool>, removed: Option<bool>) returns (code: int)
      modifies this`items
      ensures Reply(View(), code) == Apply(old(View()), EditItem(actor, i, approved, removed))
    {
      code := GuardEdit(actor, i);
      if code != OK {
        return;
      }
      if approved.Some? {
        items := items[i := items[i].(approved := approved.get)];
      }
      if removed.Some? {
        items := items[i := items[i].(removed := removed.get)];
      }
      assert items == old(items)[i := items[i]];
    }

    /** The edit of an upload that names a part by a new slug. */
    method EditWithPartAs(actor: AccountId, i: ItemId, part: ItemId) returns (code: int)
      modifies this`items
      ensures Reply(View(), code) == Apply(old(View()), AddPart(actor, i, part))
    {
      code := GuardEdit(actor, i);
      if code != OK {
        return;
      }
      if !items[i].kind.UploadItem? {
        return 422;
      }
      if part !in items {
        items := items[part := Item(PartItem, None, false, false)];
      }
    }

    // -------------------------------------------------------------- what a resolution calls

    /** `hide`, with its own permission check; false stands for the error it raises. */
    method HideItem(actor: AccountId, i: ItemId) returns (ok: bool)
      requires i in items
      modifies this`items
      ensures ok == RemovableBy(old(View()), i, actor)
      ensures items == if ok then old(items)[i := old(items)[i].(approved := false)] else old(items)
    {
      ok := items[i].owner == Some(actor) || HasScopeOf(actor, Review);
      if ok {
        items := items[i := items[i].(approved := false)];
      }
    }

    method RemoveItem(actor: AccountId, i: ItemId) returns (ok: bool)
      requires i in items
      modifies this`items
      ensures ok == RemovableBy(old(View()), i, actor)
      ensures items == if ok then old(items)[i := old(items)[i].(removed := true)] else old(items)
    {
      ok := items[i].owner == Some(actor) || HasScopeOf(actor, Review);
      if ok {
        items := items[i := items[i].(removed := true)];
      }
    }

    method Suspend(actor: AccountId, a: AccountId) returns (ok: bool)
      requires actor in accounts && a in accounts
      modifies this`accounts
      ensures ok == CanSuspend(old(View()), actor, a)
      ensures accounts == if ok then old(accounts)[a := old(accounts)[a].(suspended := true)] else old(accounts)
    {
      if !HasScope(accounts[actor], Admin) {
        return false;
      }
      ok := !(|| actor == a
              || (!HasScope(accounts[actor], Root) && HasScope(accounts[a], Admin))
              || (HasScope(accounts[actor], Root) && HasScope(accounts[a], Root)));
      if ok {
        accounts := accounts[a := accounts[a].(suspended := true)];
      }
    }

    /** Remove one kind of an account's items, one at a time, each with its own check. */
    method RemoveKind(actor: AccountId, a: AccountId, kind: Kind) returns (ok: bool)
      modifies this`items
      ensures HasScopeOf(actor, Review) ==> ok
      ensures ok ==> items == Cleared(old(items), a, {kind})
    {
      ghost var before := items;
      var todo := set i | i in items && items[i].owner == Some(a) && items[i].kind == kind;
      while todo != {}
        invariant items.Keys == before.Keys
        invariant forall i :: i in todo ==> i in before && before[i].owner == Some(a) && before[i].kind == kind
        invariant forall i :: i in before ==>
            items[i] == if before[i].owner == Some(a) && before[i].kind == kind && i !in todo
                        then before[i].(removed := true) else before[i]
        decreases |todo|
      {
        var i: ItemId :| i in todo;
        ok := RemoveItem(actor, i);
        if !ok {
          return;
        }
        todo := todo - {i};
      }
      ok := true;
    }

    /** Uploads first, then parts, then datasets. */
    method RemoveAllItems(actor: AccountId, a: AccountId) returns (ok: bool)
      modifies this`items
      ensures ok == HasScopeOf(actor, Admin)
      ensures ok ==> items == Cleared(old(items), a, ALL_KINDS)
      ensures !ok ==> items == old(items)
    {
      if !HasScopeOf(actor, Admin) {
        return false;
      }
      ok := RemoveKind(actor, a, UploadItem);
      ok := RemoveKind(actor, a, PartItem);
      ok := RemoveKind(actor, a, DatasetItem);
    }

    // -------------------------------------------------------------- resolution

    method CheckAction(actor: AccountId, r: ReportId, action: Action) returns (code: int)
      requires WellFormed(View()) && actor in accounts && r in reports
      ensures code == ActionAllowed(View(), actor, reports[r], action)
    {
      var report := reports[r];
      var reported := match report.target
        case OnAccount(a) => Some(a)
        case OnItem(i) => items[i].owner;
      if !HasScope(accounts[actor], Review) {
        return 403;
      }
      if Suspends(action) {
        if !HasScope(accounts[actor], Admin) {
          return 403;
        }
        if reported.None? {
          return 500;
        }
        if !CanSuspend(View(), actor, reported.get) {
          return 403;
        }
      }
      if reported == Some(actor) && !HasScope(accounts[actor], Root) {
        return 403;
      }
      if report.outcome.Some? {
        return 400;
      }
      if (action.Hide? || action.Remove?) && report.target.OnAccount? {
        return 422;
      }
      code := OK;
    }

    /** The checks of the actions themselves never fail once `CheckAction` has passed: a request
        is either refused with nothing changed, or carried out to the end. */
    method ResolveAs(actor: AccountId, r: ReportId, action: Action) returns (code: int)
      requires WellFormed(View())
      modifies this`accounts, this`items, this`reports
      ensures Reply(View(), code) == Apply(old(View()), ResolveReport(actor, r, action))
    {
      code := GuardReport(actor, r);
      if code != OK {
        return;
      }
      code := CheckAction(actor, r, action);
      if code != OK {
        return;
      }
      var done := TakeAction(actor, r, action);
      assert done;
      reports := reports[r := reports[r].(outcome := Some(Outcome(action, actor)))];
    }

    method GuardReport(actor: AccountId, r: ReportId) returns (code: int)
      ensures code == ReportGuard(View(), actor, r)
    {
      if actor !in accounts {
        return 401;
      }
      if accounts[actor].suspended {
        return 403;
      }
      if r !in reports {
        return if HasScope(accounts[actor], Review) then 404 else 403;
      }
      if reports[r].openedBy != actor && !HasScope(accounts[actor], Review) {
        return 403;
      }
      code := OK;
    }

    method TakeAction(actor: AccountId, r: ReportId, action: Action) returns (done: bool)
      requires WellFormed(View()) && actor in accounts && r in reports
      requires ActionAllowed(View(), actor, reports[r], action) == OK
      modifies this`accounts, this`items
      ensures done && View() == Affected(old(View()), reports[r], action)
    {
      ghost var s := View();
      var target := reports[r].target;
      done := true;
      match action {
        case Dismiss =>
        case Hide =>
          done := HideItem(actor, target.item);
        case Remove =>
          done := RemoveItem(actor, target.item);
        case Suspend =>
          if target.OnItem? {
            done := RemoveItem(actor, target.item);
          }
          if done {
            done := Suspend(actor, ReportedNow(target));
          }
        case SuspendRemove =>
          var a := ReportedNow(target);
          done := RemoveAllItems(actor, a);
          ClearedAll(s, reports[r]);
          if done {
            done := Suspend(actor, a);
          }
      }
      AffectedIs(s, reports[r], action, accounts, items);
    }

    function ReportedNow(target: Target): AccountId
      requires target.OnItem? ==> target.item in items && items[target.item].owner.Some?
      reads this
    {
      match target
      case OnAccount(a) => a
      case OnItem(i) => items[i].owner.get
    }
  }
}
