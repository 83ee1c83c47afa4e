/** Parts are handed out once, in order, until none is left. */
module ClaimsAllocator {
  import opened Wrappers
  import opened Claims

  // ---------------------------------------------------------------- busy parts

  lemma PutClaimed(claims: seq<Claim>, key: Key, status: Status, p: PartId)
    ensures Claimed(Put(claims, key, status), p) <==> Claimed(claims, p) || key.part == Some(p)
  {
    var r := Put(claims, key, status);
    match Find(claims, key) {
      case Some(i) =>
        assert forall j :: 0 <= j < |claims| ==> r[j].key == claims[j].key;
      case None =>
        assert forall j :: 0 <= j < |claims| ==> r[j] == claims[j];
        assert r[|claims|].key == key;
    }
  }

  lemma ClaimedIn(claims: seq<Claim>, p: PartId)
    ensures Claimed(claims, p) <==> exists c :: c in claims && c.key.part == Some(p)
  {
  }

  lemma UploadBusy(s: State, a: AccountId, d: DatasetId, ps: Option<set<PartId>>, p: PartId)
    requires Inv(s) && p < |s.parts| && Busy(s, p)
    ensures Busy(Apply(s, Upload(a, d, ps)).state, p)
  {
    var after := Apply(s, Upload(a, d, ps)).state;
    ClaimedIn(s.claims, p);
    ClaimedIn(after.claims, p);
    if !s.parts[p].uploaded {
      var c :| c in s.claims && c.key.part == Some(p);
      UploadClears(s, a, d, ps, c);
    }
  }

  lemma UnclaimBusy(s: State, a: AccountId, p: PartId, q: PartId)
    requires Inv(s) && q < |s.parts| && Busy(s, q)
    ensures !Busy(Apply(s, Unclaim(a, p)).state, q) ==>
              p == q && !s.parts[q].uploaded
              && forall c :: c in s.claims && c.key.part == Some(q) ==> c.key.account == Some(a)
  {
    var after := Apply(s, Unclaim(a, p)).state;
    if p < |s.parts| && !Busy(after, q) {
      var key := Key(Some(a), s.parts[p].dataset, Some(p));
      DropFirstClears(s.claims, key);
      ClaimedIn(s.claims, q);
      ClaimedIn(after.claims, q);
      forall c | c in s.claims && c.key.part == Some(q)
        ensures c.key == key
      {
        assert c !in after.claims;
      }
    }
  }

  /** A part that is claimed or uploaded stays so, through the hand-over from claim to upload
      too, unless the only account with a claim on it gives it up before any upload. */
  lemma BusyLasts(s: State, step: Step, p: PartId)
    requires Inv(s) && p < |s.parts| && Busy(s, p)
    ensures p < |Apply(s, step).state.parts|
    ensures Busy(Apply(s, step).state, p)
            || (&& step.Unclaim? && step.p == p && !s.parts[p].uploaded
                && forall c :: c in s.claims && c.key.part == Some(p) ==> c.key.account == Some(step.a))
  {
    match step
    case AddPart(_, _, _, _) =>
    case SetVisible(_, _, _) =>
    case ClaimDataset(a, d, status) => PutClaimed(s.claims, Key(Some(a), d, None), status, p);
    case ClaimPart(a, q, status) =>
      if q < |s.parts| {
        PutClaimed(s.claims, Key(Some(a), s.parts[q].dataset, Some(q)), status, p);
      }
    case Unclaim(a, q) => UnclaimBusy(s, a, q, p);
    case NextPart(viewer, d, claim) => NextBusy(s, viewer, d, claim, p);
    case Upload(a, d, ps) => UploadBusy(s, a, d, ps, p);
    case Attach(_) =>
  }

  lemma NextBusy(s: State, viewer: Option<AccountId>, d: DatasetId, claim: bool, p: PartId)
    requires p < |s.parts|
    ensures var r := Next(s, viewer, d, claim);
            && |r.state.parts| == |s.parts|
            && (Busy(r.state, p) <==> Busy(s, p) || r.part == Some(p))
  {
    var r := Next(s, viewer, d, claim);
    var n := |s.claims|;
    assert forall j :: 0 <= j < n ==> r.state.claims[j] == s.claims[j];
    if r.part == Some(p) {
      assert r.state.claims[n].key.part == Some(p);
    }
  }

  // ---------------------------------------------------------------- no part twice

  /** The parts that the run's `next` requests gave out, to whomever, in order. */
  function Handed(s: State, steps: seq<Step>): seq<PartId>
    decreases |steps|
  {
    if steps == [] then []
    else
      var r := Apply(s, steps[0]);
      (if steps[0].NextPart? && r.part.Some? then [r.part.get] else []) + Handed(r.state, steps[1..])
  }

  ghost predicate NoneGivenUp(steps: seq<Step>) {
    forall k :: 0 <= k < |steps| ==> !steps[k].Unclaim?
  }

  lemma {:induction false} BusyNeverHanded(s: State, steps: seq<Step>, p: PartId)
    requires Inv(s) && NoneGivenUp(steps) && p < |s.parts| && Busy(s, p)
    ensures p !in Handed(s, steps)
    decreases |steps|
  {
    if steps != [] {
      StepInv(s, steps[0]);
      BusyLasts(s, steps[0], p);
      BusyNeverHanded(Apply(s, steps[0]).state, steps[1..], p);
    }
  }

  /** As long as no claim is given up, no part is handed out twice, whoever asks. */
  lemma {:induction false} NoPartTwice(s: State, steps: seq<Step>)
    requires Inv(s) && NoneGivenUp(steps)
    ensures forall i, j :: 0 <= i < j < |Handed(s, steps)| ==> Handed(s, steps)[i] != Handed(s, steps)[j]
    decreases |steps|
  {
    if steps != [] {
      var r := Apply(s, steps[0]);
      StepInv(s, steps[0]);
      NoPartTwice(r.state, steps[1..]);
      if steps[0].NextPart? && r.part.Some? {
        var step := steps[0];
        NextBusy(s, step.viewer, step.d, step.claim, r.part.get);
        BusyNeverHanded(r.state, steps[1..], r.part.get);
      }
    }
  }

  // ---------------------------------------------------------------- all of them, in order

  function Left(s: State, a: AccountId, d: DatasetId): set<PartId> {
    set p | 0 <= p < |s.parts| && Eligible(s, Some(a), d, p)
  }

  lemma NextTakes(s: State, a: AccountId, d: DatasetId)
    requires Inv(s)
    ensures var r := Next(s, Some(a), d, true);
            && Inv(r.state) && r.state.parts == s.parts
            && (r.part.None? <==> Left(s, a, d) == {})
            && (r.part.None? <==> r.code == 404)
            && (r.part.Some? ==> r.part.get in Left(s, a, d)
                                 && Left(r.state, a, d) == Left(s, a, d) - {r.part.get})
            && (r.part.Some? ==> forall q :: q in Left(s, a, d) - {r.part.get} ==>
                                   s.parts[r.part.get].slug < s.parts[q].slug)
  {
    var r := Next(s, Some(a), d, true);
    StepInv(s, NextPart(Some(a), d, true));
    if r.part.Some? {
      assert r.part.get in Left(s, a, d);
      forall q | 0 <= q < |s.parts|
        ensures q in Left(r.state, a, d) <==> q in Left(s, a, d) && q != r.part.get
      {
        NextBusy(s, Some(a), d, true, q);
      }
    } else {
      assert forall p :: 0 <= p < |s.parts| ==> !Eligible(s, Some(a), d, p);
      assert Left(s, a, d) == {};
    }
  }

  /** What an account gets by asking until it is told that nothing is left. */
  function Drain(s: State, a: AccountId, d: DatasetId): (r: seq<PartId>)
    requires Inv(s)
    ensures forall p :: p in r <==> p in Left(s, a, d)
    decreases |Left(s, a, d)|
  {
    NextTakes(s, a, d);
    var r := Next(s, Some(a), d, true);
    if r.part.None? then [] else [r.part.get] + Drain(r.state, a, d)
  }

  ghost predicate Ascending(parts: seq<Part>, ps: seq<PartId>) {
    && (forall i :: 0 <= i < |ps| ==> ps[i] < |parts|)
    && (forall i, j :: 0 <= i < j < |ps| ==> parts[ps[i]].slug < parts[ps[j]].slug)
  }

  /** It gets every eligible part, once, in the order of slugs. */
  lemma {:induction false} DrainExactly(s: State, a: AccountId, d: DatasetId)
    requires Inv(s)
    ensures Ascending(s.parts, Drain(s, a, d))
    ensures forall p: PartId :: p in Drain(s, a, d) <==> p < |s.parts| && Eligible(s, Some(a), d, p)
    decreases |Left(s, a, d)|
  {
    NextTakes(s, a, d);
    var r := Next(s, Some(a), d, true);
    if r.part.Some? {
      DrainExactly(r.state, a, d);
      AscendingCons(s.parts, r.part.get, Drain(r.state, a, d));
    }
  }

  lemma AscendingCons(parts: seq<Part>, p: PartId, rest: seq<PartId>)
    requires p < |parts| && Ascending(parts, rest)
    requires forall q :: q in rest ==> parts[p].slug < parts[q].slug
    ensures Ascending(parts, [p] + rest)
  {
  }
}
