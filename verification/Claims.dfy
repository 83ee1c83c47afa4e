/** Claims on datasets and their parts, and the allocator that hands parts out. */
module Claims {
  import opened Wrappers

  type AccountId = nat
  type DatasetId = nat
  type PartId = nat

  datatype Status = InProgress | Completed

  /** A part; `slug` stands for its place in the order of slugs. Parts are never deleted, so a
      part is known by its row number. */
  datatype Part = Part(dataset: DatasetId, slug: nat, open: bool, seenBy: set<AccountId>, uploaded: bool)

  datatype Key = Key(account: Option<AccountId>, dataset: DatasetId, part: Option<PartId>)
  datatype Claim = Claim(key: Key, status: Status)

  datatype State = State(parts: seq<Part>, claims: seq<Claim>)

  /** 200 or an error status, and the part a `next` request found. */
  datatype Reply = Reply(state: State, code: int, part: Option<PartId>)

  datatype Step =
    | AddPart(d: DatasetId, slug: nat, open: bool, seenBy: set<AccountId>)
    | SetVisible(p: PartId, open: bool, seenBy: set<AccountId>)
    | ClaimDataset(a: AccountId, d: DatasetId, status: Status)
    | ClaimPart(a: AccountId, p: PartId, status: Status)
    | Unclaim(a: AccountId, p: PartId)
    | NextPart(viewer: Option<AccountId>, d: DatasetId, claim: bool)
    | Upload(a: AccountId, d: DatasetId, ps: Option<set<PartId>>)
    | Attach(others: set<PartId>)

  predicate Visible(p: Part, viewer: Option<AccountId>) {
    p.open || (viewer.Some? && viewer.get in p.seenBy)
  }

  // ---------------------------------------------------------------- queries

  /** The first claim with this key, as a query ending in `first` finds it. */
  function Find(claims: seq<Claim>, key: Key): (r: Option<nat>)
    ensures r.Some? ==> r.get < |claims| && claims[r.get].key == key
                        && forall i :: 0 <= i < r.get ==> claims[i].key != key
    ensures r.None? ==> forall c :: c in claims ==> c.key != key
  {
    if claims == [] then None
    else if claims[0].key == key then Some(0)
    else
      match Find(claims[1..], key)
      case Some(i) => Some(i + 1)
      case None => None
  }

  predicate Claimed(claims: seq<Claim>, p: PartId) {
    exists i :: 0 <= i < |claims| && claims[i].key.part == Some(p)
  }

  predicate Busy(s: State, p: PartId)
    requires p < |s.parts|
  {
    s.parts[p].uploaded || Claimed(s.claims, p)
  }

  /** What `next` may hand out: visible, not uploaded, and claimed by nobody. */
  predicate Eligible(s: State, viewer: Option<AccountId>, d: DatasetId, p: PartId) {
    && p < |s.parts| && s.parts[p].dataset == d
    && Visible(s.parts[p], viewer) && !Busy(s, p)
  }

  /** The eligible part with the least slug, among the first `n` rows. */
  function Best(s: State, viewer: Option<AccountId>, d: DatasetId, n: nat): (r: Option<PartId>)
    requires n <= |s.parts|
    ensures r.Some? ==> r.get < n && Eligible(s, viewer, d, r.get)
                        && forall p :: 0 <= p < n && Eligible(s, viewer, d, p) ==>
                                         s.parts[r.get].slug <= s.parts[p].slug
    ensures r.None? ==> forall p :: 0 <= p < n ==> !Eligible(s, viewer, d, p)
  {
    if n == 0 then None
    else
      var rest := Best(s, viewer, d, n - 1);
      if !Eligible(s, viewer, d, n - 1) then rest
      else if rest.Some? && s.parts[rest.get].slug <= s.parts[n - 1].slug then rest
      else Some(n - 1)
  }

  // ---------------------------------------------------------------- requests

  /** One claim per account and item: a second request updates the first one's row. */
  function Put(claims: seq<Claim>, key: Key, status: Status): seq<Claim> {
    match Find(claims, key)
    case Some(i) => claims[i := Claim(key, status)]
    case None => claims + [Claim(key, status)]
  }

  function DropFirst(claims: seq<Claim>, key: Key): seq<Claim> {
    match Find(claims, key)
    case Some(i) => claims[..i] + claims[i + 1..]
    case None => claims
  }

  /** Without the claims of this account on these parts of the dataset. */
  function DropParts(claims: seq<Claim>, a: AccountId, d: DatasetId, ps: set<PartId>): (r: seq<Claim>)
    ensures forall c :: c in r <==> c in claims && !OnParts(c.key, a, d, ps)
  {
    if claims == [] then []
    else (if OnParts(claims[0].key, a, d, ps) then [] else [claims[0]]) + DropParts(claims[1..], a, d, ps)
  }

  predicate OnParts(key: Key, a: AccountId, d: DatasetId, ps: set<PartId>) {
    key.account == Some(a) && key.dataset == d && key.part.Some? && key.part.get in ps
  }

  function Uploaded(parts: seq<Part>, ps: set<PartId>): (r: seq<Part>)
    ensures |r| == |parts|
    ensures forall p :: 0 <= p < |r| ==> r[p] == if p in ps then parts[p].(uploaded := true) else parts[p]
  {
    seq(|parts|, p requires 0 <= p < |parts| => if p in ps then parts[p].(uploaded := true) else parts[p])
  }

  /** The parts among these that exist and belong to the dataset. */
  function Within(parts: seq<Part>, d: DatasetId, ps: set<PartId>): set<PartId> {
    set p | p in ps && p < |parts| && parts[p].dataset == d
  }

  predicate SlugTaken(s: State, d: DatasetId, slug: nat) {
    exists p :: 0 <= p < |s.parts| && s.parts[p].dataset == d && s.parts[p].slug == slug
  }

  function Next(s: State, viewer: Option<AccountId>, d: DatasetId, claim: bool): Reply {
    var best := Best(s, viewer, d, |s.parts|);
    if best.None? then Reply(s, 404, None)
    else if claim && viewer.None? then Reply(s, 401, None)
    else
      // the claim is made whatever `claim` says; without an account its row is kept, but
      // reading it back fails
      var key := Key(viewer, d, best);
      Reply(s.(claims := s.claims + [Claim(key, InProgress)]), if viewer.Some? then 200 else 500, best)
  }

  function Apply(s: State, step: Step): Reply {
    match step
    case AddPart(d, slug, open, seenBy) =>
      if SlugTaken(s, d, slug) then Reply(s, 400, None)
      else Reply(s.(parts := s.parts + [Part(d, slug, open, seenBy, false)]), 200, None)
    case SetVisible(p, open, seenBy) =>
      if p >= |s.parts| then Reply(s, 404, None)
      else Reply(s.(parts := s.parts[p := s.parts[p].(open := open, seenBy := seenBy)]), 200, None)
    case ClaimDataset(a, d, status) =>
      // the row is written; a claim without a part cannot be read back
      Reply(s.(claims := Put(s.claims, Key(Some(a), d, None), status)), 500, None)
    case ClaimPart(a, p, status) =>
      if p >= |s.parts| || !Visible(s.parts[p], Some(a)) then Reply(s, 404, None)
      else Reply(s.(claims := Put(s.claims, Key(Some(a), s.parts[p].dataset, Some(p)), status)), 200, None)
    case Unclaim(a, p) =>
      if p >= |s.parts| || !Visible(s.parts[p], Some(a)) then Reply(s, 404, None)
      else
        var key := Key(Some(a), s.parts[p].dataset, Some(p));
        if Find(s.claims, key).None? then Reply(s, 404, None)
        else Reply(s.(claims := DropFirst(s.claims, key)), 200, None)
    case NextPart(viewer, d, claim) => Next(s, viewer, d, claim)
    case Upload(a, d, ps) =>
      match ps {
        case None => Reply(s.(claims := DropFirst(s.claims, Key(Some(a), d, None))), 200, None)
        case Some(of) =>
          var mine := Within(s.parts, d, of);
          Reply(State(Uploaded(s.parts, mine), DropParts(s.claims, a, d, mine)), 200, None)
      }
    case Attach(others) => Reply(s.(parts := Uploaded(s.parts, others)), 200, None)
  }

  // ---------------------------------------------------------------- one claim per key

  ghost predicate Single(claims: seq<Claim>) {
    forall i, j :: 0 <= i < j < |claims| ==> claims[i].key != claims[j].key
  }

  /** At most one claim per account or none, dataset, and part or none; claims on a part name
      the part's dataset; slugs are unique in their dataset. */
  ghost predicate Inv(s: State) {
    && Single(s.claims)
    && (forall c :: c in s.claims && c.key.part.Some? ==>
          c.key.part.get < |s.parts| && s.parts[c.key.part.get].dataset == c.key.dataset)
    && (forall p, q :: 0 <= p < q < |s.parts| && s.parts[p].dataset == s.parts[q].dataset ==>
          s.parts[p].slug != s.parts[q].slug)
  }

  lemma PutSingle(claims: seq<Claim>, key: Key, status: Status)
    requires Single(claims)
    ensures Single(Put(claims, key, status))
    ensures forall c :: c in Put(claims, key, status) <==> c == Claim(key, status) || (c in claims && c.key != key)
  {
    var r := Put(claims, key, status);
    match Find(claims, key) {
      case Some(i) =>
        assert forall j :: 0 <= j < |claims| ==> r[j].key == claims[j].key;
        assert forall j :: 0 <= j < |claims| && j != i ==> r[j] == claims[j];
        assert r[i] == Claim(key, status);
      case None =>
        assert forall j :: 0 <= j < |claims| ==> r[j] == claims[j] && claims[j] in claims;
        assert r[|claims|] == Claim(key, status);
    }
  }

  /** Clearing the first claim with a key clears every claim with it, and no other. */
  lemma DropFirstClears(claims: seq<Claim>, key: Key)
    requires Single(claims)
    ensures Single(DropFirst(claims, key))
    ensures forall c :: c in DropFirst(claims, key) <==> c in claims && c.key != key
  {
  }

  lemma {:induction false} DropPartsSingle(claims: seq<Claim>, a: AccountId, d: DatasetId, ps: set<PartId>)
    requires Single(claims)
    ensures Single(DropParts(claims, a, d, ps))
  {
    if claims != [] {
      var rest := DropParts(claims[1..], a, d, ps);
      DropPartsSingle(claims[1..], a, d, ps);
      forall c | c in rest
        ensures c.key != claims[0].key
      {
        assert c in claims[1..];
      }
    }
  }

  lemma StepInv(s: State, step: Step)
    requires Inv(s)
    ensures Inv(Apply(s, step).state)
  {
    match step
    case AddPart(_, _, _, _) =>
    case SetVisible(_, _, _) =>
    case ClaimDataset(a, d, status) => PutSingle(s.claims, Key(Some(a), d, None), status);
    case ClaimPart(a, p, status) =>
      if p < |s.parts| {
        PutSingle(s.claims, Key(Some(a), s.parts[p].dataset, Some(p)), status);
      }
    case Unclaim(a, p) =>
      if p < |s.parts| {
        DropFirstClears(s.claims, Key(Some(a), s.parts[p].dataset, Some(p)));
      }
    case NextPart(viewer, d, claim) => NextInv(s, viewer, d, claim);
    case Upload(a, d, ps) => UploadInv(s, a, d, ps);
    case Attach(_) =>
  }

  lemma UploadInv(s: State, a: AccountId, d: DatasetId, ps: Option<set<PartId>>)
    requires Inv(s)
    ensures Inv(Apply(s, Upload(a, d, ps)).state)
  {
    if ps.None? {
      DropFirstClears(s.claims, Key(Some(a), d, None));
    } else {
      DropPartsSingle(s.claims, a, d, Within(s.parts, d, ps.get));
    }
  }

  lemma NextInv(s: State, viewer: Option<AccountId>, d: DatasetId, claim: bool)
    requires Inv(s)
    ensures Inv(Next(s, viewer, d, claim).state)
  {
  }

  function Run(s: State, steps: seq<Step>): State
    decreases |steps|
  {
    if steps == [] then s else Run(Apply(s, steps[0]).state, steps[1..])
  }

  lemma {:induction false} RunInv(s: State, steps: seq<Step>)
    requires Inv(s)
    ensures Inv(Run(s, steps))
    decreases |steps|
  {
    if steps != [] {
      StepInv(s, steps[0]);
      RunInv(Apply(s, steps[0]).state, steps[1..]);
    }
  }

  /** The claims an upload settles: the uploader's own, on the dataset or on the parts given. */
  predicate Settled(key: Key, a: AccountId, d: DatasetId, ps: Option<set<PartId>>) {
    && key.account == Some(a) && key.dataset == d
    && match ps
       case None => key.part == None
       case Some(of) => key.part.Some? && key.part.get in of
  }

  /** An upload clears all the claims it settles, and none of the others. */
  lemma UploadClears(s: State, a: AccountId, d: DatasetId, ps: Option<set<PartId>>, c: Claim)
    requires Inv(s)
    ensures c in Apply(s, Upload(a, d, ps)).state.claims <==> c in s.claims && !Settled(c.key, a, d, ps)
  {
  }
}
