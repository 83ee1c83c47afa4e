/** Who can read an item: not every route that answers with one asks whether it is visible. The
    routes are those that only read; what they answer with, they answer with as a whole. */
module Reading {
  import opened Wrappers
  import opened Moderation
  import opened ModerationRuns

  /** The dataset that a part or an upload belongs to. */
  type Home = ItemId -> ItemId

  /** Datasets are named by slug, uploads by short hash; both name removed ones as well. */
  datatype Read =
    | ListDatasets
    | ShowDataset(i: ItemId)
    | DatasetPage(i: ItemId)
    | ListParts(i: ItemId)
    | ShowPart(i: ItemId)
    | PartPage(i: ItemId)
    | ListUploads
    | ShowUpload(i: ItemId)
    | UploadPartial(i: ItemId)
    | ShowReport(r: ReportId)

  // ---------------------------------------------------------------- the routes

  /** A suspended account reads as anybody does. */
  function Viewer(s: State, who: Option<AccountId>): Option<AccountId> {
    if who.Some? && Active(s, who.get) then who else None
  }

  predicate Is(s: State, i: ItemId, kind: Kind) {
    i in s.items && s.items[i].kind == kind
  }

  predicate Shown(s: State, i: ItemId, kind: Kind, who: Option<AccountId>) {
    Is(s, i, kind) && VisibleTo(s, i, Viewer(s, who))
  }

  /** A dataset as it is answered: with all of its uploads. */
  function WholeDataset(s: State, home: Home, d: ItemId): set<ItemId> {
    if Is(s, d, DatasetItem) then {d} + set i | i in s.items && Is(s, i, UploadItem) && home(i) == d else {}
  }

  /** A part as it is answered: with its dataset; one without an owner cannot be answered. */
  function WholePart(s: State, home: Home, p: ItemId): set<ItemId>
    requires p in s.items
  {
    if s.items[p].owner.Some? then {p} + WholeDataset(s, home, home(p)) else {}
  }

  function WholeTarget(s: State, home: Home, target: Target): set<ItemId> {
    match target
    case OnAccount(_) => {}
    case OnItem(i) =>
      if i !in s.items then {}
      else
        match s.items[i].kind
        case DatasetItem => WholeDataset(s, home, i)
        case PartItem => WholePart(s, home, i)
        case UploadItem => {i}
  }

  /** The items that come with the answer; none if the request is refused or its answer fails. */
  function Answer(s: State, home: Home, read: Read, who: Option<AccountId>): set<ItemId> {
    match read
    case ListDatasets =>
      set d, i | d in s.items && Shown(s, d, DatasetItem, who) && i in WholeDataset(s, home, d) :: i
    case ShowDataset(i) => WholeDataset(s, home, i)
    case DatasetPage(i) => if Shown(s, i, DatasetItem, who) then {i} else {}
    case ListParts(i) =>
      if !Is(s, i, DatasetItem) then {}
      else
        var parts := set p | p in s.items && Shown(s, p, PartItem, who) && home(p) == i;
        if parts == {} || exists p :: p in parts && s.items[p].owner.None? then {}
        else parts + WholeDataset(s, home, i)
    case ShowPart(i) => if Shown(s, i, PartItem, who) then WholePart(s, home, i) else {}
    case PartPage(i) =>
      if Shown(s, i, PartItem, who) && Shown(s, home(i), DatasetItem, who) then {i} else {}
    case ListUploads => set i | i in s.items && Shown(s, i, UploadItem, who)
    case ShowUpload(i) => if Shown(s, i, UploadItem, who) then {i} else {}
    case UploadPartial(i) => if Is(s, i, UploadItem) then {i} else {}
    case ShowReport(r) =>
      if who.Some? && ReportGuard(s, who.get, r) == OK then WholeTarget(s, home, s.reports[r].target) else {}
  }

  ghost predicate Readable(s: State, home: Home, i: ItemId, who: Option<AccountId>) {
    exists read :: i in Answer(s, home, read, who)
  }

  // ---------------------------------------------------------------- what can be read

  /** The account is shown a report of the item: one it opened, or any to a reviewer. */
  ghost predicate ReportedTo(s: State, i: ItemId, who: Option<AccountId>) {
    && who.Some? && Active(s, who.get)
    && exists r :: r in s.reports && s.reports[r].target == OnItem(i)
                   && (s.reports[r].openedBy == who.get || Holds(s, who.get, Review))
  }

  ghost predicate PartReadable(s: State, home: Home, i: ItemId, who: Option<AccountId>)
    requires i in s.items
  {
    if s.items[i].owner.Some? then VisibleTo(s, i, Viewer(s, who)) || ReportedTo(s, i, who)
    else VisibleTo(s, i, Viewer(s, who)) && Shown(s, home(i), DatasetItem, who)
  }

  /** Datasets and uploads can be read by everybody, hidden or removed. A part can be read by those
      to whom it is visible, and by those who are shown a report of it. */
  lemma ReadableExactly(s: State, home: Home, i: ItemId, who: Option<AccountId>)
    ensures Readable(s, home, i, who) <==>
            i in s.items && (s.items[i].kind.PartItem? ==> PartReadable(s, home, i, who))
  {
    if read :| i in Answer(s, home, read, who) {
      AnswerReadable(s, home, read, i, who);
    }
    if i in s.items {
      match s.items[i].kind
      case DatasetItem => assert i in Answer(s, home, ShowDataset(i), who);
      case UploadItem => assert i in Answer(s, home, UploadPartial(i), who);
      case PartItem =>
        if PartReadable(s, home, i, who) {
          PartAnswered(s, home, i, who);
        }
    }
  }

  lemma AnswerReadable(s: State, home: Home, read: Read, i: ItemId, who: Option<AccountId>)
    requires i in Answer(s, home, read, who)
    ensures i in s.items && (s.items[i].kind.PartItem? ==> PartReadable(s, home, i, who))
  {
    match read
    case ShowReport(r) =>
      if s.items[i].kind.PartItem? {
        assert s.reports[r].target == OnItem(i);
      }
    case _ =>
  }

  lemma PartAnswered(s: State, home: Home, i: ItemId, who: Option<AccountId>)
    requires Is(s, i, PartItem) && PartReadable(s, home, i, who)
    ensures Readable(s, home, i, who)
  {
    if s.items[i].owner.None? {
      assert i in Answer(s, home, PartPage(i), who);
    } else if VisibleTo(s, i, Viewer(s, who)) {
      assert i in Answer(s, home, ShowPart(i), who);
    } else {
      var r :| r in s.reports && s.reports[r].target == OnItem(i)
               && (s.reports[r].openedBy == who.get || Holds(s, who.get, Review));
      assert i in Answer(s, home, ShowReport(r), who);
    }
  }

  /** The routes that name an item and ask whether it is visible. */
  function CheckedItem(read: Read): Option<ItemId> {
    match read
    case DatasetPage(i) => Some(i)
    case ShowPart(i) => Some(i)
    case PartPage(i) => Some(i)
    case ShowUpload(i) => Some(i)
    case _ => None
  }

  /** Those that ask answer only to those to whom the item is visible; what is listed by itself is
      visible too, and all that is visible of that kind is listed. */
  lemma CheckedExactly(s: State, home: Home, read: Read, who: Option<AccountId>)
    ensures CheckedItem(read).Some? && Answer(s, home, read, who) != {} ==>
              CheckedItem(read).get in s.items && VisibleTo(s, CheckedItem(read).get, Viewer(s, who))
    ensures forall i :: i in Answer(s, home, ListUploads, who) <==>
              i in s.items && s.items[i].kind == UploadItem && VisibleTo(s, i, Viewer(s, who))
    ensures forall d :: d in s.items && s.items[d].kind == DatasetItem ==>
              (d in Answer(s, home, ListDatasets, who) <==> VisibleTo(s, d, Viewer(s, who)))
  {
    forall d | d in s.items && s.items[d].kind == DatasetItem
      ensures d in Answer(s, home, ListDatasets, who) <==> VisibleTo(s, d, Viewer(s, who))
    {
      assert d in WholeDataset(s, home, d);
    }
  }

  /** `j` is the dataset or one of its uploads. */
  predicate InDataset(s: State, home: Home, d: ItemId, j: ItemId) {
    && d in s.items && s.items[d].kind == DatasetItem
    && (j == d || (j in s.items && s.items[j].kind == UploadItem && home(j) == d))
  }

  /** Route by route, whether `j` comes with the answer to a read of dataset `i`. */
  lemma DatasetRoutes(s: State, home: Home, i: ItemId, j: ItemId, who: Option<AccountId>)
    ensures j in Answer(s, home, ListDatasets, who) <==>
            exists d :: d in s.items && InDataset(s, home, d, j) && VisibleTo(s, d, Viewer(s, who))
    ensures j in Answer(s, home, ShowDataset(i), who) <==> InDataset(s, home, i, j)
    ensures j in Answer(s, home, DatasetPage(i), who) <==>
            j == i && InDataset(s, home, i, i) && VisibleTo(s, i, Viewer(s, who))
    ensures Viewer(s, who) ==
            if who.Some? && who.get in s.accounts && !s.accounts[who.get].suspended then who else None
  {
    forall d
      ensures j in WholeDataset(s, home, d) <==> InDataset(s, home, d, j)
    {
    }
  }

  /** The same for parts: a list of them fails as a whole if one that is visible has no owner. */
  lemma PartRoutes(s: State, home: Home, i: ItemId, j: ItemId, who: Option<AccountId>)
    ensures j in Answer(s, home, ListParts(i), who) <==>
            && InDataset(s, home, i, i) && PartsOf(s, home, i, who) != {}
            && (forall p :: p in PartsOf(s, home, i, who) ==> s.items[p].owner != None)
            && (j in PartsOf(s, home, i, who) || InDataset(s, home, i, j))
    ensures j in Answer(s, home, ShowPart(i), who) <==>
            && i in s.items && s.items[i].kind == PartItem && VisibleTo(s, i, Viewer(s, who))
            && s.items[i].owner != None && (j == i || InDataset(s, home, home(i), j))
    ensures j in Answer(s, home, PartPage(i), who) <==>
            && j == i && i in s.items && s.items[i].kind == PartItem && VisibleTo(s, i, Viewer(s, who))
            && InDataset(s, home, home(i), home(i)) && VisibleTo(s, home(i), Viewer(s, who))
  {
    assert PartsOf(s, home, i, who) ==
           set p | p in s.items && Shown(s, p, PartItem, who) && home(p) == i;
  }

  function PartsOf(s: State, home: Home, d: ItemId, who: Option<AccountId>): set<ItemId> {
    set p | p in s.items && s.items[p].kind == PartItem && home(p) == d && VisibleTo(s, p, Viewer(s, who))
  }

  /** The same for uploads, and for reports: shown to whoever opened them and to reviewers. */
  lemma UploadRoutes(s: State, home: Home, i: ItemId, j: ItemId, r: ReportId, who: Option<AccountId>)
    ensures j in Answer(s, home, ShowUpload(i), who) <==>
            j == i && i in s.items && s.items[i].kind == UploadItem && VisibleTo(s, i, Viewer(s, who))
    ensures j in Answer(s, home, UploadPartial(i), who) <==> j == i && i in s.items && s.items[i].kind == UploadItem
    ensures j in Answer(s, home, ShowReport(r), who) <==>
            && who.Some? && Active(s, who.get) && r in s.reports
            && (s.reports[r].openedBy == who.get || Holds(s, who.get, Review))
            && s.reports[r].target.OnItem?
            && var i := s.reports[r].target.item;
               && i in s.items
               && (|| (s.items[i].kind == UploadItem && j == i)
                   || (s.items[i].kind == DatasetItem && InDataset(s, home, i, j))
                   || (s.items[i].kind == PartItem && s.items[i].owner != None
                       && (j == i || InDataset(s, home, home(i), j))))
  {
  }

  // ---------------------------------------------------------------- over runs

  /** A dataset or an upload can be read by everybody from the moment it is there, for good. */
  lemma ReadForGood(s: State, steps: seq<Step>, k: nat, n: nat, home: Home, i: ItemId, who: Option<AccountId>)
    requires k <= n <= |steps| && i in Run(s, steps, k).items && !Run(s, steps, k).items[i].kind.PartItem?
    ensures Readable(Run(s, steps, n), home, i, who)
  {
    ItemKept(s, steps, k, n, i);
    ReadableExactly(Run(s, steps, n), home, i, who);
  }

  /** Nothing can be reported any more once it is removed. */
  lemma NoNewReport(s: State, step: Step, i: ItemId, r: ReportId)
    requires i in s.items && s.items[i].removed
    requires r in Apply(s, step).state.reports && Apply(s, step).state.reports[r].target == OnItem(i)
    ensures r in s.reports && s.reports[r].target == OnItem(i)
  {
  }

  lemma {:induction false} OldReport(s: State, steps: seq<Step>, k: nat, n: nat, i: ItemId, r: ReportId)
    requires k <= n <= |steps| && i in Run(s, steps, k).items && Run(s, steps, k).items[i].removed
    requires r in Run(s, steps, n).reports && Run(s, steps, n).reports[r].target == OnItem(i)
    ensures r in Run(s, steps, k).reports && Run(s, steps, k).reports[r].target == OnItem(i)
    decreases n
  {
    if k < n {
      ItemKept(s, steps, k, n - 1, i);
      NoNewReport(Run(s, steps, n - 1), steps[n - 1], i, r);
      OldReport(s, steps, k, n - 1, i, r);
    }
  }

  /** The report of an item is shown to an account that opened it, or that is by then a reviewer. */
  predicate Shows(before: State, after: State, r: ReportId, i: ItemId, a: AccountId) {
    && r in before.reports && before.reports[r].target == OnItem(i)
    && (before.reports[r].openedBy == a || Holds(after, a, Review))
  }

  /** Who can read a removed item at any later time: everybody if it is a dataset or an upload; a
      part, only active accounts that had reported it before it was removed, and reviewers if
      anybody had. */
  lemma RemovedReadExactly(
    s: State, steps: seq<Step>, k: nat, n: nat, home: Home, i: ItemId, who: Option<AccountId>)
    requires k <= n <= |steps| && i in Run(s, steps, k).items && Run(s, steps, k).items[i].removed
    ensures var before, after := Run(s, steps, k), Run(s, steps, n);
            Readable(after, home, i, who) <==>
            || !before.items[i].kind.PartItem?
            || (&& before.items[i].owner.Some? && who.Some? && Active(after, who.get)
                && exists r :: Shows(before, after, r, i, who.get))
  {
    var before, after := Run(s, steps, k), Run(s, steps, n);
    ItemKept(s, steps, k, n, i);
    ReadableExactly(after, home, i, who);
    if ReportedTo(after, i, who) {
      var r :| r in after.reports && after.reports[r].target == OnItem(i)
               && (after.reports[r].openedBy == who.get || Holds(after, who.get, Review));
      OldReport(s, steps, k, n, i, r);
      ReportKept(s, steps, k, n, r);
      assert Shows(before, after, r, i, who.get);
    }
    if who.Some? {
      forall r | Shows(before, after, r, i, who.get)
        ensures r in after.reports && after.reports[r].target == OnItem(i)
                && after.reports[r].openedBy == before.reports[r].openedBy
      {
        ReportKept(s, steps, k, n, r);
      }
    }
  }

  // ---------------------------------------------------------------- what hiding promises

  /** The owner of the item, or a reviewer. */
  predicate Privy(s: State, i: ItemId, a: AccountId)
    requires i in s.items
  {
    s.items[i].owner == Some(a) || Holds(s, a, Review)
  }

  /** Only the owner and reviewers can read the item. */
  ghost predicate Private(s: State, home: Home, i: ItemId)
    requires i in s.items
  {
    forall who :: Readable(s, home, i, who) ==> who.Some? && Active(s, who.get) && Privy(s, i, who.get)
  }

  /** Nobody else has reported it, or none that is still active. */
  ghost predicate NoStranger(s: State, i: ItemId)
    requires i in s.items
  {
    forall r :: r in s.reports && s.reports[r].target == OnItem(i) && Active(s, s.reports[r].openedBy) ==>
      Privy(s, i, s.reports[r].openedBy)
  }

  /** An item that is not approved is private exactly when it is a part that no stranger reported. */
  lemma PrivateExactly(s: State, home: Home, i: ItemId)
    requires i in s.items && !s.items[i].approved
    ensures Private(s, home, i) <==>
            s.items[i].kind.PartItem? && (s.items[i].owner.Some? ==> NoStranger(s, i))
  {
    forall who
      ensures Readable(s, home, i, who) <==>
              (s.items[i].kind.PartItem? ==> PartReadable(s, home, i, who))
    {
      ReadableExactly(s, home, i, who);
    }
    if s.items[i].kind.PartItem? && s.items[i].owner.Some? {
      if r :| r in s.reports && s.reports[r].target == OnItem(i) && Active(s, s.reports[r].openedBy)
              && !Privy(s, i, s.reports[r].openedBy) {
        assert ReportedTo(s, i, Some(s.reports[r].openedBy));
        assert Readable(s, home, i, Some(s.reports[r].openedBy));
      }
    } else if !s.items[i].kind.PartItem? {
      assert Readable(s, home, i, None);
    }
  }

  /** A hidden item should be read only by its creator and by moderators. As long as no reviewer
      approves it, that is so at any later time exactly when it is a part, and nobody else who is
      active then has reported it. */
  lemma HidingKeptExactly(s: State, steps: seq<Step>, n: nat, home: Home, i: ItemId)
    requires n <= |steps| && i in s.items && !s.items[i].approved
    requires forall k :: 0 <= k < n ==> !Reviewed(s, steps, k, i)
    ensures i in Run(s, steps, n).items
    ensures Private(Run(s, steps, n), home, i) <==>
            s.items[i].kind.PartItem? && (s.items[i].owner.Some? ==> NoStranger(Run(s, steps, n), i))
  {
    var after := Run(s, steps, n);
    ItemKept(s, steps, 0, n, i);
    if s.items[i].kind.PartItem? {
      PartStaysHidden(s, steps, n, i);
      PrivateExactly(after, home, i);
    } else {
      ReadForGood(s, steps, 0, n, home, i, None);
    }
  }

  /** Parts cannot be patched, so only reviewers bring them back. */
  lemma {:induction false} PartStaysHidden(s: State, steps: seq<Step>, n: nat, i: ItemId)
    requires n <= |steps| && Is(s, i, PartItem) && !s.items[i].approved
    requires forall k :: 0 <= k < n ==> !Reviewed(s, steps, k, i)
    ensures i in Run(s, steps, n).items && !Run(s, steps, n).items[i].approved
  {
    if n > 0 {
      PartStaysHidden(s, steps, n - 1, i);
      ItemKept(s, steps, 0, n - 1, i);
      StepApproval(Run(s, steps, n - 1), steps[n - 1], i);
      PatchedOrReviewed(s, steps, n - 1, i);
    }
  }

  // ---------------------------------------------------------------- inputs

  /** A hidden dataset, and no patch of its owner's: it is not visible, and answered to anybody. */
  lemma HiddenRead(home: Home) returns (hidden: State)
    ensures hidden == Run(INITIAL, UNHIDING, 4)
    ensures 0 in hidden.items && !VisibleTo(hidden, 0, None)
    ensures 0 in Answer(hidden, home, ShowDataset(0), None)
  {
    hidden := HidingReached();
  }

  /** A part is reported by an account without any scope and then removed: the part is visible to
      nobody, and the report goes on showing it to that account. */
  const REPORTING := [
    RegisterAccount(1), CreateItem(0, 0, PartItem, false), OpenReport(1, 0, OnItem(0)), DenyItem(0, 0)]

  lemma RemovedRead(home: Home) returns (removed: State)
    ensures removed == Run(INITIAL, REPORTING, 4)
    ensures Invisible(removed, 0) && 0 in Answer(removed, home, ShowReport(0), Some(1))
  {
    removed := RemovedReached();
    ReportAnswers(removed, home);
  }

  lemma RemovedReached() returns (removed: State)
    ensures removed == Run(INITIAL, REPORTING, 4)
    ensures removed.accounts == INITIAL.accounts[1 := Account({}, false)]
    ensures removed.items == map[0 := Item(PartItem, Some(0), true, true)]
    ensures removed.reports == map[0 := Report(1, OnItem(0), None)]
  {
    var one := INITIAL.(accounts := INITIAL.accounts[1 := Account({}, false)]);
    var two := one.(items := map[0 := Item(PartItem, Some(0), true, false)]);
    var three := two.(reports := map[0 := Report(1, OnItem(0), None)]);
    removed := three.(items := map[0 := Item(PartItem, Some(0), true, true)]);
    Reaches(INITIAL, REPORTING, 0, INITIAL, one);
    Reaches(INITIAL, REPORTING, 1, one, two);
    Reaches(INITIAL, REPORTING, 2, two, three);
    Denied(three, removed);
    Reaches(INITIAL, REPORTING, 3, three, removed);
  }

  lemma Denied(s: State, after: State)
    requires s.accounts == INITIAL.accounts[1 := Account({}, false)]
    requires s.items == map[0 := Item(PartItem, Some(0), true, false)]
    requires s.reports == map[0 := Report(1, OnItem(0), None)]
    requires after == s.(items := map[0 := Item(PartItem, Some(0), true, true)])
    ensures WellFormed(s) && Apply(s, DenyItem(0, 0)) == Reply(after, OK)
  {
  }

  lemma ReportAnswers(s: State, home: Home)
    requires s.accounts == INITIAL.accounts[1 := Account({}, false)]
    requires s.items == map[0 := Item(PartItem, Some(0), true, true)]
    requires s.reports == map[0 := Report(1, OnItem(0), None)]
    ensures Invisible(s, 0) && 0 in Answer(s, home, ShowReport(0), Some(1))
  {
    assert ReportGuard(s, 1, 0) == OK;
    assert 0 in WholePart(s, home, 0);
  }
}
