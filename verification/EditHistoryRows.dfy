/** Which objects a flush writes rows for, and when it can, said of the session's own fields. */
module EditHistoryRows {
  import opened Wrappers
  import opened EditHistory
  import opened EditHistoryProofs

  // ---------------------------------------------------------------- the conditions

  /** Something has joined the collection, or left it. */
  ghost predicate Differs(c: Coll) {
    exists y :: (y in c.now && y !in c.before) || (y in c.before && y !in c.now)
  }

  /** The object is new, deleted, or really changed: in its columns, in a collection of its, or in
      another relation. */
  ghost predicate Own<V>(s: Session<V>, x: Id) {
    || x in s.created
    || x in s.deleted
    || (x in s.dirty && x in s.table && x in s.current &&
        (|| s.table[x] != s.current[x]
         || (x in s.colls && exists i :: 0 <= i < |s.colls[x]| && Differs(s.colls[x][i]))
         || x in s.touched))
  }

  /** `y` is a member, as before, of the `i`-th collection of `x`, which has changed. */
  ghost predicate Stays<V>(s: Session<V>, x: Id, i: int, y: Id) {
    && Own(s, x) && x in s.colls && 0 <= i < |s.colls[x]| && Differs(s.colls[x][i])
    && y in s.colls[x][i].now && y in s.colls[x][i].before
  }

  ghost predicate HasRow<V>(s: Session<V>, y: Id) {
    Own(s, y) || exists x, i :: Stays(s, x, i, y)
  }

  /** No staying member is listed twice in its collection. */
  ghost predicate ListedOnce(c: Coll) {
    forall j, k :: 0 <= j < k < |c.now| && c.now[j] == c.now[k] ==> c.now[j] !in c.before
  }

  /** No object has two reasons for a row. */
  ghost predicate OneReason<V>(s: Session<V>) {
    && (forall x, i, y :: Stays(s, x, i, y) ==> !Own(s, y))
    && PulledOnce(s)
  }

  /** No object is pulled in twice. */
  ghost predicate PulledOnce<V>(s: Session<V>) {
    && (forall x, i, u, k, y :: Stays(s, x, i, y) && Stays(s, u, k, y) ==> x == u && i == k)
    && (forall x, i :: Own(s, x) && x in s.colls && 0 <= i < |s.colls[x]| && Differs(s.colls[x][i]) ==>
          ListedOnce(s.colls[x][i]))
  }

  // ---------------------------------------------------------------- due

  lemma ChangedExactly(c: Coll)
    ensures Changed(c) <==> Differs(c)
  {
    forall y
      ensures (y in Members(c.before) <==> y in c.before) && (y in Members(c.now) <==> y in c.now)
    {
    }
    if !Differs(c) {
      assert Members(c.before) == Members(c.now);
    }
  }

  lemma AnyChangedExactly(cs: seq<Coll>)
    ensures AnyChanged(cs) <==> exists i :: 0 <= i < |cs| && Differs(cs[i])
  {
    forall i | 0 <= i < |cs|
      ensures Changed(cs[i]) <==> Differs(cs[i])
    {
      ChangedExactly(cs[i]);
    }
  }

  /** What is due is exactly what is new, deleted or really changed. */
  lemma DueExactly<V>(s: Session<V>, w: (Id, Kind))
    requires SessionInv(s) && w in Work(s)
    ensures Due(s, w) <==> Own(s, w.0)
  {
    WorkMember(s, w);
    AnyChangedExactly(CollsOf(s, w.0));
    NotTwice(s, w.0);
  }

  lemma NotTwice<V>(s: Session<V>, x: Id)
    requires SessionInv(s)
    ensures x in s.dirty ==> x !in s.created && x !in s.deleted
  {
    DistinctParts(s.created + s.dirty, s.deleted);
    DistinctParts(s.created, s.dirty);
  }

  lemma OwnWorks<V>(s: Session<V>, x: Id) returns (w: (Id, Kind))
    requires SessionInv(s) && Own(s, x)
    ensures w in Work(s) && w.0 == x && Due(s, w)
  {
    w := (x, if x in s.created then New else if x in s.deleted then Deleted else Dirty);
    WorkMember(s, w);
    DueExactly(s, w);
  }

  lemma OwnListed<V>(s: Session<V>, x: Id)
    requires SessionInv(s)
    ensures x in OwnIds(s, Work(s)) <==> Own(s, x)
  {
    OwnIdsIn(s, Work(s), x);
    if Own(s, x) {
      var w := OwnWorks(s, x);
      var k :| 0 <= k < |Work(s)| && Work(s)[k] == w;
      assert Due(s, Work(s)[k]) && Work(s)[k].0 == x;
    }
    if k :| 0 <= k < |Work(s)| && Due(s, Work(s)[k]) && Work(s)[k].0 == x {
      DueExactly(s, Work(s)[k]);
    }
  }

  // ---------------------------------------------------------------- pulled in

  lemma PulledStays(cs: seq<Coll>, y: Id)
    ensures y in Pulled(cs) <==>
            exists i :: 0 <= i < |cs| && Differs(cs[i]) && y in cs[i].now && y in cs[i].before
  {
    PulledIn(cs, y);
    forall i | 0 <= i < |cs|
      ensures Changed(cs[i]) <==> Differs(cs[i])
    {
      ChangedExactly(cs[i]);
    }
  }

  lemma {:induction false} PulledIdsExactly<V>(s: Session<V>, work: seq<(Id, Kind)>, y: Id)
    ensures y in PulledIds(s, work) <==>
            exists k :: 0 <= k < |work| && Due(s, work[k]) && y in Pulled(CollsOf(s, work[k].0))
    decreases |work|
  {
    if work != [] {
      PulledIdsExactly(s, work[1..], y);
      assert forall k :: 0 < k < |work| ==> work[k] == work[1..][k - 1];
    }
  }

  lemma PulledListed<V>(s: Session<V>, y: Id)
    requires SessionInv(s)
    ensures y in PulledIds(s, Work(s)) <==> exists x, i :: Stays(s, x, i, y)
  {
    var work := Work(s);
    PulledIdsExactly(s, work, y);
    if k :| 0 <= k < |work| && Due(s, work[k]) && y in Pulled(CollsOf(s, work[k].0)) {
      var x := work[k].0;
      DueExactly(s, work[k]);
      PulledStays(CollsOf(s, x), y);
      var i :| 0 <= i < |CollsOf(s, x)| && Differs(CollsOf(s, x)[i]) && y in CollsOf(s, x)[i].now
               && y in CollsOf(s, x)[i].before;
      assert Stays(s, x, i, y);
    }
    if x, i :| Stays(s, x, i, y) {
      var w := OwnWorks(s, x);
      var k :| 0 <= k < |work| && work[k] == w;
      PulledStays(CollsOf(s, x), y);
    }
  }

  // ---------------------------------------------------------------- the rows written

  lemma RowListed<V>(s: Session<V>, y: Id)
    requires SessionInv(s) && Ready(s, Work(s))
    ensures y in RowIds(FlushRows(s, Work(s))) <==> HasRow(s, y)
  {
    var work := Work(s);
    FlushRowIds(s, work);
    AllIdsCount(s, work);
    var all, own, pulled := AllIds(s, work), OwnIds(s, work), PulledIds(s, work);
    assert y in all <==> y in multiset(all);
    assert y in multiset(all) <==> y in multiset(own) || y in multiset(pulled);
    OwnListed(s, y);
    PulledListed(s, y);
  }

  /** A flush adds rows for exactly the objects that are new, deleted or really changed and for
      those that stay in a changed collection of one of these, each with the columns it has now,
      and as deletions exactly for what is deleted. */
  lemma RowsExactly<V>(s: Session<V>, h: History<V>, before: int, at: int, y: Id, t: int)
    requires SessionInv(s) && Ready(s, Work(s)) && UpTo(h, before) && before < at
    requires AddAll(h, FlushRows(s, Work(s)), at).Some?
    ensures var h2 := AddAll(h, FlushRows(s, Work(s)), at).get;
            && ((y, t) in h2 <==> (y, t) in h || (t == at && HasRow(s, y)))
            && ((y, t) in h ==> h2[(y, t)] == h[(y, t)])
            && (HasRow(s, y) ==>
                  (y, at) in h2 && y in s.current && h2[(y, at)] == Version(s.current[y], y in s.deleted))
  {
    var rows := FlushRows(s, Work(s));
    AddAllContent(h, rows, at, (y, t));
    AddAllContent(h, rows, at, (y, at));
    RowListed(s, y);
    if HasRow(s, y) {
      AddAllExactly(h, rows, at);
      var i :| 0 <= i < |rows| && RowIds(rows)[i] == y;
      FlushedRow(s, rows, i);
      AddAllRow(h, rows, at, i);
    }
  }

  // ---------------------------------------------------------------- when they can be written

  predicate Disjoint(a: seq<Id>, b: seq<Id>) {
    forall x :: x in a ==> x !in b
  }

  lemma {:induction false} DistinctParts(a: seq<Id>, b: seq<Id>)
    ensures DistinctIds(a + b) <==> DistinctIds(a) && DistinctIds(b) && Disjoint(a, b)
  {
    if a == [] {
      assert a + b == b;
    } else {
      var first, rest := a[0], a[1..];
      assert a == [first] + rest && a + b == [first] + (rest + b);
      DistinctParts(rest, b);
      DistinctCons(first, rest);
      DistinctCons(first, rest + b);
      assert Disjoint(a, b) <==> first !in b && Disjoint(rest, b);
    }
  }

  function Flat(parts: seq<seq<Id>>): seq<Id> {
    if parts == [] then [] else parts[0] + Flat(parts[1..])
  }

  lemma {:induction false} FlatMember(parts: seq<seq<Id>>, x: Id)
    ensures x in Flat(parts) <==> exists i :: 0 <= i < |parts| && x in parts[i]
  {
    if parts != [] {
      FlatMember(parts[1..], x);
      assert forall i :: 0 < i < |parts| ==> parts[i] == parts[1..][i - 1];
    }
  }

  ghost predicate Apart(parts: seq<seq<Id>>) {
    && (forall i :: 0 <= i < |parts| ==> DistinctIds(parts[i]))
    && (forall i, k :: 0 <= i < k < |parts| ==> Disjoint(parts[i], parts[k]))
  }

  lemma ApartCons(parts: seq<seq<Id>>)
    requires parts != []
    ensures Apart(parts) <==>
            && DistinctIds(parts[0]) && Apart(parts[1..])
            && forall k :: 0 < k < |parts| ==> Disjoint(parts[0], parts[k])
  {
    var rest := parts[1..];
    assert forall i :: 0 < i < |parts| ==> parts[i] == rest[i - 1];
    if Apart(parts) {
      forall i | 0 <= i < |rest|
        ensures DistinctIds(rest[i])
      {
        assert rest[i] == parts[i + 1];
      }
      forall i, k | 0 <= i < k < |rest|
        ensures Disjoint(rest[i], rest[k])
      {
        assert rest[i] == parts[i + 1] && rest[k] == parts[k + 1];
      }
    }
  }

  /** Ids put together are distinct exactly when each part's are and no two parts share one. */
  lemma {:induction false} FlatDistinct(parts: seq<seq<Id>>)
    ensures DistinctIds(Flat(parts)) <==> Apart(parts)
  {
    if parts != [] {
      var rest := parts[1..];
      FlatDistinct(rest);
      DistinctParts(parts[0], Flat(rest));
      ApartCons(parts);
      DisjointFlat(parts);
    }
  }

  lemma DisjointFlat(parts: seq<seq<Id>>)
    requires parts != []
    ensures Disjoint(parts[0], Flat(parts[1..])) <==> forall k :: 0 < k < |parts| ==> Disjoint(parts[0], parts[k])
  {
    var rest := parts[1..];
    forall x
      ensures x in Flat(rest) <==> exists k :: 0 < k < |parts| && x in parts[k]
    {
      FlatMember(rest, x);
      if i :| 0 <= i < |rest| && x in rest[i] {
        assert x in parts[i + 1];
      }
      if k :| 0 < k < |parts| && x in parts[k] {
        assert x in rest[k - 1];
      }
    }
    if Disjoint(parts[0], Flat(rest)) {
      forall k | 0 < k < |parts|
        ensures Disjoint(parts[0], parts[k])
      {
      }
    }
  }

  ghost predicate OnceIn(now: seq<Id>, before: seq<Id>) {
    forall j, k :: 0 <= j < k < |now| && now[j] == now[k] ==> now[j] !in before
  }

  lemma OnceCons(first: Id, rest: seq<Id>, before: seq<Id>)
    ensures OnceIn([first] + rest, before) <==> OnceIn(rest, before) && (first in before ==> first !in rest)
  {
    var now := [first] + rest;
    assert forall k :: 0 <= k < |rest| ==> now[k + 1] == rest[k];
    assert now[0] == first;
    if OnceIn(now, before) {
      forall j, k | 0 <= j < k < |rest| && rest[j] == rest[k]
        ensures rest[j] !in before
      {
        assert now[j + 1] == now[k + 1];
      }
      if first in rest {
        var k :| 0 <= k < |rest| && rest[k] == first;
        assert now[0] == now[k + 1];
      }
    }
  }

  lemma {:induction false} UnchangedOnce(now: seq<Id>, before: seq<Id>)
    ensures DistinctIds(Unchanged(now, before)) <==> OnceIn(now, before)
  {
    if now != [] {
      var first, rest := now[0], now[1..];
      assert now == [first] + rest;
      UnchangedOnce(rest, before);
      OnceCons(first, rest, before);
      if first in before {
        DistinctCons(first, Unchanged(rest, before));
      } else {
        assert Unchanged(now, before) == Unchanged(rest, before);
      }
    }
  }

  function Part(c: Coll): seq<Id> {
    if Changed(c) then Unchanged(c.now, c.before) else []
  }

  lemma PartExactly(c: Coll)
    ensures DistinctIds(Part(c)) <==> (Differs(c) ==> ListedOnce(c))
    ensures forall y :: y in Part(c) <==> Differs(c) && y in c.now && y in c.before
  {
    ChangedExactly(c);
    UnchangedOnce(c.now, c.before);
  }

  function Parts(cs: seq<Coll>): seq<seq<Id>> {
    if cs == [] then [] else [Part(cs[0])] + Parts(cs[1..])
  }

  lemma {:induction false} PartsFlat(cs: seq<Coll>)
    ensures Pulled(cs) == Flat(Parts(cs))
    ensures |Parts(cs)| == |cs| && forall i :: 0 <= i < |cs| ==> Parts(cs)[i] == Part(cs[i])
  {
    if cs != [] {
      PartsFlat(cs[1..]);
    }
  }

  function WorkParts<V(==)>(s: Session<V>, work: seq<(Id, Kind)>): seq<seq<Id>> {
    if work == [] then []
    else [if Due(s, work[0]) then Pulled(CollsOf(s, work[0].0)) else []] + WorkParts(s, work[1..])
  }

  lemma {:induction false} WorkPartsFlat<V>(s: Session<V>, work: seq<(Id, Kind)>)
    ensures PulledIds(s, work) == Flat(WorkParts(s, work))
    ensures |WorkParts(s, work)| == |work|
    ensures forall k :: 0 <= k < |work| ==>
              WorkParts(s, work)[k] == if Due(s, work[k]) then Pulled(CollsOf(s, work[k].0)) else []
    decreases |work|
  {
    if work != [] {
      WorkPartsFlat(s, work[1..]);
    }
  }

  /** Where the members that `x` pulls in stand. */
  lemma Placed<V>(s: Session<V>, x: Id) returns (k: nat)
    requires SessionInv(s) && Own(s, x)
    ensures k < |Work(s)| && Work(s)[k].0 == x && Due(s, Work(s)[k])
  {
    var w := OwnWorks(s, x);
    k :| 0 <= k < |Work(s)| && Work(s)[k] == w;
  }

  lemma PulledDistinct<V>(s: Session<V>, k: nat)
    requires SessionInv(s) && DistinctIds(PulledIds(s, Work(s))) && k < |Work(s)| && Due(s, Work(s)[k])
    ensures DistinctIds(Pulled(CollsOf(s, Work(s)[k].0)))
  {
    var parts := WorkParts(s, Work(s));
    WorkPartsFlat(s, Work(s));
    FlatDistinct(parts);
    assert DistinctIds(parts[k]);
  }

  lemma SameOwner<V>(s: Session<V>, m: nat, n: nat, y: Id)
    requires SessionInv(s) && DistinctIds(PulledIds(s, Work(s))) && m <= n < |Work(s)|
    requires Due(s, Work(s)[m]) && y in Pulled(CollsOf(s, Work(s)[m].0))
    requires Due(s, Work(s)[n]) && y in Pulled(CollsOf(s, Work(s)[n].0))
    ensures m == n
  {
    var parts := WorkParts(s, Work(s));
    WorkPartsFlat(s, Work(s));
    FlatDistinct(parts);
    assert m < n ==> Disjoint(parts[m], parts[n]);
  }

  lemma SameColl(cs: seq<Coll>, i: nat, k: nat, y: Id)
    requires DistinctIds(Pulled(cs)) && i <= k < |cs| && y in Part(cs[i]) && y in Part(cs[k])
    ensures i == k
  {
    PartsFlat(cs);
    FlatDistinct(Parts(cs));
    assert i < k ==> Disjoint(Parts(cs)[i], Parts(cs)[k]);
  }

  lemma OnceApart<V>(s: Session<V>, x: Id, i: int, u: Id, k: int, y: Id)
    requires SessionInv(s) && DistinctIds(PulledIds(s, Work(s))) && Stays(s, x, i, y) && Stays(s, u, k, y)
    ensures x == u && i == k
  {
    var m := Placed(s, x);
    var n := Placed(s, u);
    PulledStays(s.colls[x], y);
    PulledStays(s.colls[u], y);
    if m <= n { SameOwner(s, m, n, y); } else { SameOwner(s, n, m, y); }
    PulledDistinct(s, m);
    PartExactly(s.colls[x][i]);
    PartExactly(s.colls[u][k]);
    if i <= k { SameColl(s.colls[x], i, k, y); } else { SameColl(s.colls[x], k, i, y); }
  }

  lemma OnceListed<V>(s: Session<V>, x: Id, i: int)
    requires SessionInv(s) && DistinctIds(PulledIds(s, Work(s)))
    requires Own(s, x) && x in s.colls && 0 <= i < |s.colls[x]| && Differs(s.colls[x][i])
    ensures ListedOnce(s.colls[x][i])
  {
    var m := Placed(s, x);
    PulledDistinct(s, m);
    PartsFlat(s.colls[x]);
    FlatDistinct(Parts(s.colls[x]));
    assert DistinctIds(Parts(s.colls[x])[i]);
    PartExactly(s.colls[x][i]);
  }

  lemma StaysAt<V>(s: Session<V>, k: nat, y: Id) returns (i: nat)
    requires SessionInv(s) && k < |Work(s)| && Due(s, Work(s)[k]) && y in Pulled(CollsOf(s, Work(s)[k].0))
    ensures Stays(s, Work(s)[k].0, i, y)
  {
    var cs := CollsOf(s, Work(s)[k].0);
    DueExactly(s, Work(s)[k]);
    PulledStays(cs, y);
    i :| 0 <= i < |cs| && Differs(cs[i]) && y in cs[i].now && y in cs[i].before;
  }

  lemma EachPartDistinct<V>(s: Session<V>, k: nat)
    requires SessionInv(s) && PulledOnce(s) && k < |Work(s)| && Due(s, Work(s)[k])
    ensures DistinctIds(Pulled(CollsOf(s, Work(s)[k].0)))
  {
    var x, cs := Work(s)[k].0, CollsOf(s, Work(s)[k].0);
    DueExactly(s, Work(s)[k]);
    PartsFlat(cs);
    FlatDistinct(Parts(cs));
    forall i | 0 <= i < |cs|
      ensures DistinctIds(Parts(cs)[i])
    {
      PartExactly(cs[i]);
    }
    forall i, m | 0 <= i < m < |cs|
      ensures Disjoint(Parts(cs)[i], Parts(cs)[m])
    {
      PartExactly(cs[i]);
      PartExactly(cs[m]);
      forall y | y in Parts(cs)[i]
        ensures y !in Parts(cs)[m]
      {
        assert Stays(s, x, i, y);
        assert y in Part(cs[m]) ==> Stays(s, x, m, y);
      }
    }
  }

  lemma PulledOnceExactly<V>(s: Session<V>)
    requires SessionInv(s)
    ensures DistinctIds(PulledIds(s, Work(s))) <==> PulledOnce(s)
  {
    var work, parts := Work(s), WorkParts(s, Work(s));
    WorkPartsFlat(s, work);
    FlatDistinct(parts);
    if DistinctIds(PulledIds(s, work)) {
      forall x, i, u, k, y | Stays(s, x, i, y) && Stays(s, u, k, y)
        ensures x == u && i == k
      {
        OnceApart(s, x, i, u, k, y);
      }
      forall x, i | Own(s, x) && x in s.colls && 0 <= i < |s.colls[x]| && Differs(s.colls[x][i])
        ensures ListedOnce(s.colls[x][i])
      {
        OnceListed(s, x, i);
      }
    }
    if PulledOnce(s) {
      forall k | 0 <= k < |parts|
        ensures DistinctIds(parts[k])
      {
        if Due(s, work[k]) {
          EachPartDistinct(s, k);
        }
      }
      forall k, m | 0 <= k < m < |parts|
        ensures Disjoint(parts[k], parts[m])
      {
        WorksApart(s, k, m);
      }
    }
  }

  lemma WorksApart<V>(s: Session<V>, k: nat, m: nat)
    requires SessionInv(s) && PulledOnce(s) && k < m < |Work(s)|
    ensures |WorkParts(s, Work(s))| == |Work(s)|
    ensures Disjoint(WorkParts(s, Work(s))[k], WorkParts(s, Work(s))[m])
  {
    var parts := WorkParts(s, Work(s));
    WorkPartsFlat(s, Work(s));
    WorkIds(s);
    forall y | y in parts[k]
      ensures y !in parts[m]
    {
      var i := StaysAt(s, k, y);
      assert Work(s)[k].0 != Work(s)[m].0;
      if y in parts[m] {
        var j := StaysAt(s, m, y);
      }
    }
  }

  lemma OneReasonExactly<V>(s: Session<V>)
    requires SessionInv(s)
    ensures NoClash(s, Work(s)) <==> OneReason(s)
  {
    PulledOnceExactly(s);
    forall y
      ensures y in OwnIds(s, Work(s)) <==> Own(s, y)
      ensures y in PulledIds(s, Work(s)) <==> exists x, i :: Stays(s, x, i, y)
    {
      OwnListed(s, y);
      PulledListed(s, y);
    }
  }

  /** A flush goes through for exactly the sessions in which no object has two reasons for a row. */
  lemma FlushExactly<V>(s: Session<V>, h: History<V>, before: int, at: int)
    requires SessionInv(s) && Ready(s, Work(s)) && UpTo(h, before) && before < at
    ensures AddAll(h, FlushRows(s, Work(s)), at).Some? <==> OneReason(s)
  {
    NoClashExactly(s, h, before, at);
    OneReasonExactly(s);
  }

  /** One that fails: object 1 loses member 3 and keeps member 2, which is changed itself. */
  const CLASHING := Session(map[1 := "p", 2 := "c", 3 := "d"], map[1 := "p", 2 := "new", 3 := "d"],
                            map[1 := [Coll([2, 3], [2])]], {}, [], [1, 2], [])

  lemma ClashExample()
    ensures SessionInv(CLASHING) && !OneReason(CLASHING)
  {
    assert 3 in CLASHING.colls[1][0].before;
    assert Differs(CLASHING.colls[1][0]);
    assert Stays(CLASHING, 1, 0, 2) && Own(CLASHING, 2);
  }
}
