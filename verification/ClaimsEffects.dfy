/** What each request does to the claims and the parts: that and nothing else. */
module ClaimsEffects {
  import opened Wrappers
  import opened Claims
  import opened ClaimsAllocator

  /** Whether a request to claim or unclaim a part finds it. */
  predicate Reachable(s: State, a: AccountId, p: PartId) {
    p < |s.parts| && (s.parts[p].open || a in s.parts[p].seenBy)
  }

  function PartKey(s: State, a: AccountId, p: PartId): Key
    requires p < |s.parts|
  {
    Key(Some(a), s.parts[p].dataset, Some(p))
  }

  /** Claiming a part leaves exactly one claim of the account on it, with the status given, and
      every claim under another key as it was; nobody is then handed the part. */
  lemma PartClaimed(s: State, a: AccountId, p: PartId, status: Status, c: Claim)
    requires Inv(s)
    ensures var r := Apply(s, ClaimPart(a, p, status));
            && r.code == (if Reachable(s, a, p) then 200 else 404) && r.state.parts == s.parts
            && (c in r.state.claims <==>
                  if Reachable(s, a, p)
                  then c == Claim(PartKey(s, a, p), status) || (c in s.claims && c.key != PartKey(s, a, p))
                  else c in s.claims)
            && (r.code == 200 ==> forall viewer, d :: !Free(r.state, viewer, d, p))
  {
    if Reachable(s, a, p) {
      var key := PartKey(s, a, p);
      PutSingle(s.claims, key, status);
      var after := Apply(s, ClaimPart(a, p, status)).state;
      assert Claim(key, status) in after.claims;
    }
  }

  /** Claiming a dataset leaves exactly one claim of the account on it as a whole. */
  lemma DatasetClaimed(s: State, a: AccountId, d: DatasetId, status: Status, c: Claim)
    requires Inv(s)
    ensures var after, key := Apply(s, ClaimDataset(a, d, status)).state, Key(Some(a), d, None);
            && after.parts == s.parts
            && (c in after.claims <==> c == Claim(key, status) || (c in s.claims && c.key != key))
  {
    PutSingle(s.claims, Key(Some(a), d, None), status);
  }

  /** Giving up a claim removes it and no other; without such a claim nothing happens. */
  lemma PartUnclaimed(s: State, a: AccountId, p: PartId, c: Claim)
    requires Inv(s)
    ensures var r := Apply(s, Unclaim(a, p));
            var held := Reachable(s, a, p) && exists i :: 0 <= i < |s.claims| && s.claims[i].key == PartKey(s, a, p);
            && r.code == (if held then 200 else 404) && r.state.parts == s.parts
            && (c in r.state.claims <==> c in s.claims && (held ==> c.key != PartKey(s, a, p)))
  {
    if Reachable(s, a, p) {
      DropFirstClears(s.claims, PartKey(s, a, p));
      if Find(s.claims, PartKey(s, a, p)).None? {
        forall i | 0 <= i < |s.claims|
          ensures s.claims[i].key != PartKey(s, a, p)
        {
          assert s.claims[i] in s.claims;
        }
      }
    }
  }

  /** Visible to the viewer, of the dataset, not uploaded, and named by no claim. */
  ghost predicate Free(s: State, viewer: Option<AccountId>, d: DatasetId, p: PartId) {
    && p < |s.parts| && s.parts[p].dataset == d && !s.parts[p].uploaded
    && (s.parts[p].open || (viewer.Some? && viewer.get in s.parts[p].seenBy))
    && forall c :: c in s.claims ==> c.key.part != Some(p)
  }

  lemma FreeExactly(s: State, viewer: Option<AccountId>, d: DatasetId, p: PartId)
    ensures Eligible(s, viewer, d, p) <==> Free(s, viewer, d, p)
  {
    ClaimedIn(s.claims, p);
  }

  /** `next` adds the claim of the viewer on the part it finds, and nothing else; also without an
      account, unless it was asked to claim. */
  lemma NextClaimed(s: State, viewer: Option<AccountId>, d: DatasetId, claim: bool, c: Claim)
    requires Inv(s)
    ensures var r := Apply(s, NextPart(viewer, d, claim));
            var found := exists p :: 0 <= p < |s.parts| && Free(s, viewer, d, p);
            && r.state.parts == s.parts
            && r.code == (if !found then 404 else if viewer.Some? then 200 else if claim then 401 else 500)
            && (r.code in {404, 401} ==> r.state == s)
            && (r.code in {200, 500} ==>
                  && r.part.Some? && Free(s, viewer, d, r.part.get)
                  && (forall p :: 0 <= p < |s.parts| && Free(s, viewer, d, p) ==>
                        s.parts[r.part.get].slug <= s.parts[p].slug)
                  && (c in r.state.claims <==> c in s.claims || c == Claim(Key(viewer, d, r.part), InProgress)))
  {
    forall p: PartId
      ensures Eligible(s, viewer, d, p) <==> Free(s, viewer, d, p)
    {
      FreeExactly(s, viewer, d, p);
    }
  }

  /** The parts that an upload of these, or the addition of others to one, names. */
  predicate Uploads(s: State, step: Step, p: PartId)
    requires p < |s.parts|
  {
    match step
    case Upload(_, d, ps) => ps.Some? && p in ps.get && s.parts[p].dataset == d
    case Attach(others) => p in others
    case _ => false
  }

  /** Of a part, requests change whether it is uploaded, which they never take back, and whom it
      is visible to. A part is added, as not uploaded, only under a slug that its dataset does not have. */
  lemma PartsExactly(s: State, step: Step, p: PartId)
    requires Inv(s)
    ensures var after := Apply(s, step).state.parts;
            if p < |s.parts| then
              && p < |after| && after[p].dataset == s.parts[p].dataset && after[p].slug == s.parts[p].slug
              && (after[p].uploaded <==> s.parts[p].uploaded || Uploads(s, step, p))
              && (if step.SetVisible? && step.p == p
                  then after[p].open == step.open && after[p].seenBy == step.seenBy
                  else after[p].open == s.parts[p].open && after[p].seenBy == s.parts[p].seenBy)
            else
              && (p < |after| <==>
                    && step.AddPart? && p == |s.parts|
                    && forall q :: 0 <= q < |s.parts| && s.parts[q].dataset == step.d ==> s.parts[q].slug != step.slug)
              && (p < |after| ==> after[p] == Part(step.d, step.slug, step.open, step.seenBy, false))
  {
  }

  /** The other requests leave the claims as they are. How they are answered: */
  lemma OthersExactly(s: State, step: Step)
    ensures step.AddPart? || step.SetVisible? || step.Attach? ==> Apply(s, step).state.claims == s.claims
    ensures Apply(s, step).code ==
            match step
            case AddPart(d, slug, _, _) =>
              if forall p :: 0 <= p < |s.parts| && s.parts[p].dataset == d ==> s.parts[p].slug != slug
              then 200 else 400
            case SetVisible(p, _, _) => if p < |s.parts| then 200 else 404
            case ClaimDataset(_, _, _) => 500
            case Upload(_, _, _) => 200
            case Attach(_) => 200
            case _ => Apply(s, step).code
  {
  }
}
