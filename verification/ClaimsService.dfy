/** The claim requests as they are carried out on the tables. */
module ClaimsService {
  import opened Wrappers
  import opened Claims

  // ---------------------------------------------------------------- deleting rows one by one

  /** The claims of this account on these parts of the dataset, as a query lists them. */
  function Listed(claims: seq<Claim>, a: AccountId, d: DatasetId, ps: set<PartId>): (r: seq<Claim>)
    ensures forall c :: c in r <==> c in claims && OnParts(c.key, a, d, ps)
  {
    if claims == [] then []
    else (if OnParts(claims[0].key, a, d, ps) then [claims[0]] else []) + Listed(claims[1..], a, d, ps)
  }

  function Keys(claims: seq<Claim>): set<Key> {
    set c | c in claims :: c.key
  }

  function Keep(claims: seq<Claim>, gone: set<Key>): seq<Claim> {
    if claims == [] then []
    else (if claims[0].key in gone then [] else [claims[0]]) + Keep(claims[1..], gone)
  }

  lemma {:induction false} KeepAll(claims: seq<Claim>, gone: set<Key>)
    requires forall c :: c in claims ==> c.key !in gone
    ensures Keep(claims, gone) == claims
  {
    if claims != [] {
      KeepAll(claims[1..], gone);
    }
  }

  lemma {:induction false} KeepIn(claims: seq<Claim>, gone: set<Key>, c: Claim)
    ensures c in Keep(claims, gone) <==> c in claims && c.key !in gone
  {
    if claims != [] {
      KeepIn(claims[1..], gone, c);
    }
  }

  lemma {:induction false} KeepSingle(claims: seq<Claim>, gone: set<Key>)
    requires Single(claims)
    ensures Single(Keep(claims, gone))
  {
    if claims != [] {
      KeepSingle(claims[1..], gone);
      forall c | c in Keep(claims[1..], gone)
        ensures c.key != claims[0].key
      {
        KeepIn(claims[1..], gone, c);
        assert c in claims[1..];
      }
    }
  }

  lemma {:induction false} DropFirstKeeps(claims: seq<Claim>, key: Key)
    requires Single(claims)
    ensures DropFirst(claims, key) == Keep(claims, {key})
  {
    if claims != [] {
      var rest := claims[1..];
      if claims[0].key == key {
        KeepAll(rest, {key});
      } else {
        DropFirstKeeps(rest, key);
        DropTail(claims, key);
      }
    }
  }

  lemma DropTail(claims: seq<Claim>, key: Key)
    requires claims != [] && claims[0].key != key
    ensures DropFirst(claims, key) == [claims[0]] + DropFirst(claims[1..], key)
  {
  }

  lemma {:induction false} KeepTwice(claims: seq<Claim>, gone: set<Key>, key: Key)
    ensures Keep(Keep(claims, gone), {key}) == Keep(claims, gone + {key})
  {
    if claims != [] {
      var rest := Keep(claims[1..], gone);
      KeepTwice(claims[1..], gone, key);
      if claims[0].key in gone {
        assert [] + rest == rest;
      } else {
        KeepCons(claims[0], rest, key);
      }
    }
  }

  lemma KeepCons(first: Claim, rest: seq<Claim>, key: Key)
    ensures Keep([first] + rest, {key}) == (if first.key == key then [] else [first]) + Keep(rest, {key})
  {
    assert ([first] + rest)[1..] == rest;
  }

  lemma KeysNext(listed: seq<Claim>, i: nat)
    requires i < |listed|
    ensures Keys(listed[..i + 1]) == Keys(listed[..i]) + {listed[i].key}
  {
    assert listed[..i + 1] == listed[..i] + [listed[i]];
  }

  lemma KeepStep(all: seq<Claim>, listed: seq<Claim>, i: nat)
    requires Single(all) && i < |listed|
    ensures DropFirst(Keep(all, Keys(listed[..i])), listed[i].key) == Keep(all, Keys(listed[..i + 1]))
  {
    var gone, key := Keys(listed[..i]), listed[i].key;
    KeysNext(listed, i);
    calc {
      DropFirst(Keep(all, gone), key);
    ==  { KeepSingle(all, gone); DropFirstKeeps(Keep(all, gone), key); }
      Keep(Keep(all, gone), {key});
    ==  { KeepTwice(all, gone, key); }
      Keep(all, gone + {key});
    ==
      Keep(all, Keys(listed[..i + 1]));
    }
  }

  lemma ListedDropped(all: seq<Claim>, a: AccountId, d: DatasetId, ps: set<PartId>)
    ensures Keep(all, Keys(Listed(all, a, d, ps))) == DropParts(all, a, d, ps)
  {
    var listed := Listed(all, a, d, ps);
    forall c | c in all
      ensures c.key in Keys(listed) <==> OnParts(c.key, a, d, ps)
    {
      if OnParts(c.key, a, d, ps) {
        assert c in listed;
      }
    }
    KeepIsDrop(all, a, d, ps, Keys(listed));
  }

  lemma {:induction false} KeepIsDrop(claims: seq<Claim>, a: AccountId, d: DatasetId, ps: set<PartId>, gone: set<Key>)
    requires forall c :: c in claims ==> (c.key in gone <==> OnParts(c.key, a, d, ps))
    ensures Keep(claims, gone) == DropParts(claims, a, d, ps)
  {
    if claims != [] {
      KeepIsDrop(claims[1..], a, d, ps, gone);
    }
  }

  // ---------------------------------------------------------------- the tables

  class ClaimTables {
    var parts: seq<Part>
    var claims: seq<Claim>

    ghost function View(): State
      reads this
    {
      State(parts, claims)
    }

    method PutClaim(key: Key, status: Status)
      modifies this`claims
      ensures claims == Put(old(claims), key, status)
    {
      var row := Find(claims, key);
      if row.Some? {
        claims := claims[row.get := claims[row.get].(status := status)];
      } else {
        claims := claims + [Claim(key, status)];
      }
    }

    method DeleteClaim(key: Key)
      modifies this`claims
      ensures claims == DropFirst(old(claims), key)
    {
      var row := Find(claims, key);
      if row.Some? {
        claims := claims[..row.get] + claims[row.get + 1..];
      }
    }

    method ClaimDatasetAs(a: AccountId, d: DatasetId, status: Status) returns (code: int)
      modifies this`claims
      ensures Reply(View(), code, None) == Apply(old(View()), ClaimDataset(a, d, status))
    {
      PutClaim(Key(Some(a), d, None), status);
      code := 500;
    }

    method ClaimPartAs(a: AccountId, p: PartId, status: Status) returns (code: int)
      modifies this`claims
      ensures Reply(View(), code, None) == Apply(old(View()), ClaimPart(a, p, status))
    {
      if p >= |parts| || !Visible(parts[p], Some(a)) {
        return 404;
      }
      PutClaim(Key(Some(a), parts[p].dataset, Some(p)), status);
      code := 200;
    }

    method UnclaimAs(a: AccountId, p: PartId) returns (code: int)
      modifies this`claims
      ensures Reply(View(), code, None) == Apply(old(View()), Unclaim(a, p))
    {
      if p >= |parts| || !Visible(parts[p], Some(a)) {
        return 404;
      }
      var key := Key(Some(a), parts[p].dataset, Some(p));
      if Find(claims, key).None? {
        return 404;
      }
      DeleteClaim(key);
      code := 200;
    }

    method NextFor(viewer: Option<AccountId>, d: DatasetId, claim: bool) returns (code: int, part: Option<PartId>)
      modifies this`claims
      ensures Reply(View(), code, part) == Apply(old(View()), NextPart(viewer, d, claim))
    {
      part := Best(State(parts, claims), viewer, d, |parts|);
      if part.None? {
        return 404, None;
      }
      if claim && viewer.None? {
        return 401, None;
      }
      claims := claims + [Claim(Key(viewer, d, part), InProgress)];
      code := if viewer.Some? then 200 else 500;
    }

    /** Each claim the query lists is deleted by itself. */
    method ClearParts(a: AccountId, d: DatasetId, ps: set<PartId>)
      requires Single(claims)
      modifies this`claims
      ensures claims == DropParts(old(claims), a, d, ps)
    {
      ghost var all := claims;
      var listed := Listed(claims, a, d, ps);
      assert Keys(listed[..0]) == {};
      KeepAll(claims, {});
      for i := 0 to |listed|
        invariant claims == Keep(all, Keys(listed[..i]))
      {
        KeepStep(all, listed, i);
        DeleteClaim(listed[i].key);
      }
      assert listed[..|listed|] == listed;
      ListedDropped(all, a, d, ps);
    }

    method UploadAs(a: AccountId, d: DatasetId, ps: Option<set<PartId>>) returns (code: int)
      requires Single(claims)
      modifies this
      ensures Reply(View(), code, None) == Apply(old(View()), Upload(a, d, ps))
    {
      if ps.None? {
        DeleteClaim(Key(Some(a), d, None));
      } else {
        var mine := Within(parts, d, ps.get);
        parts := Uploaded(parts, mine);
        ClearParts(a, d, mine);
      }
      code := 200;
    }
  }
}
