/** The history of a versioned many-to-many collection, which gets no row events of its own. */
module LinkHistory {
  import opened Wrappers
  import opened EditHistory
  import opened EditHistoryProofs
  import opened EditHistoryRows

  /** A link's row carries nothing but the link itself. */
  type LinkRow = Row<()>
  type Links = History<()>

  lemma {:induction false} RemovedDistinct(before: seq<Id>, now: seq<Id>)
    requires DistinctIds(before)
    ensures DistinctIds(Minus(before, now))
  {
    if before != [] {
      RemovedDistinct(before[1..], now);
    }
  }

  function RowsFrom(ids: seq<Id>, deletion: bool): (r: seq<LinkRow>)
    ensures |r| == |ids| && forall i :: 0 <= i < |r| ==> r[i] == Row(ids[i], (), deletion)
  {
    if ids == [] then [] else [Row(ids[0], (), deletion)] + RowsFrom(ids[1..], deletion)
  }

  /** An emptied collection is passed over, as is an unchanged one of an object that is not new. */
  predicate Passed(now: seq<Id>, before: seq<Id>, isNew: bool) {
    now == [] || (!Changed(Coll(before, now)) && !isNew)
  }

  function LinkRows(now: seq<Id>, before: seq<Id>, isNew: bool): seq<LinkRow> {
    if Passed(now, before, isNew) then []
    else RowsFrom(now, false) + RowsFrom(Minus(before, now), true)
  }

  method UpdateManyToMany(now: seq<Id>, before: seq<Id>, isNew: bool) returns (rows: seq<LinkRow>)
    ensures rows == LinkRows(now, before, isNew)
  {
    if |now| == 0 {
      return [];
    }
    if !Changed(Coll(before, now)) && !isNew {
      return [];
    }
    rows := [];
    for i := 0 to |now|
      invariant |rows| == i && forall k :: 0 <= k < i ==> rows[k] == Row(now[k], (), false)
    {
      rows := rows + [Row(now[i], (), false)];
    }
    assert rows == RowsFrom(now, false);
    var deletions := DeletionRows(Minus(before, now));
    rows := rows + deletions;
  }

  method DeletionRows(removed: seq<Id>) returns (rows: seq<LinkRow>)
    ensures rows == RowsFrom(removed, true)
  {
    rows := [];
    for i := 0 to |removed|
      invariant |rows| == i && forall k :: 0 <= k < i ==> rows[k] == Row(removed[k], (), true)
    {
      rows := rows + [Row(removed[i], (), true)];
    }
  }

  lemma RowsFromMember(ids: seq<Id>, deletion: bool, id: Id, asDeletion: bool)
    ensures Row(id, (), asDeletion) in RowsFrom(ids, deletion) <==> id in ids && asDeletion == deletion
  {
    var rows := RowsFrom(ids, deletion);
    if id in ids && asDeletion == deletion {
      var i :| 0 <= i < |ids| && ids[i] == id;
      assert rows[i] == Row(id, (), deletion);
    }
  }

  /** The rows are exactly: every present link as live, if the object is new or its collection has
      changed; every removed link as deleted, unless none is left; each once, and no link in both. */
  lemma RowsExactly(now: seq<Id>, before: seq<Id>, isNew: bool, id: Id)
    requires DistinctIds(now) && DistinctIds(before)
    ensures var rows := LinkRows(now, before, isNew);
            && (Row(id, (), false) in rows <==>
                  id in now && (isNew || exists y :: (y in now && y !in before) || (y in before && y !in now)))
            && (Row(id, (), true) in rows <==> now != [] && id in before && id !in now)
            && DistinctIds(RowIds(rows))
  {
    ChangedExactly(Coll(before, now));
    var removed := Minus(before, now);
    RowsFromMember(now, false, id, false);
    RowsFromMember(now, false, id, true);
    RowsFromMember(removed, true, id, false);
    RowsFromMember(removed, true, id, true);
    RemovedDistinct(before, now);
    IdsDistinct(now, removed);
  }

  lemma IdsDistinct(now: seq<Id>, removed: seq<Id>)
    requires DistinctIds(now) && DistinctIds(removed) && forall x :: x in removed ==> x !in now
    ensures RowIds(RowsFrom(now, false) + RowsFrom(removed, true)) == now + removed
    ensures DistinctIds(RowIds(RowsFrom(now, false) + RowsFrom(removed, true)))
  {
    var rows := RowsFrom(now, false) + RowsFrom(removed, true);
    forall i | 0 <= i < |rows|
      ensures RowIds(rows)[i] == (now + removed)[i]
    {
    }
    assert RowIds(rows) == now + removed;
    forall i, j | 0 <= i < j < |now + removed|
      ensures (now + removed)[i] != (now + removed)[j]
    {
      if i < |now| <= j {
        assert (now + removed)[j] in removed;
        assert (now + removed)[i] in now;
      }
    }
  }

  // ---------------------------------------------------------------- what the rows tell

  /** Reading only rows up to `t`, the newest one for this link is live. */
  ghost predicate Live(h: Links, id: Id, t: int) {
    exists at :: Newest(h, id, t, at) && !h[(id, at)].deletion
  }

  ghost predicate TellsLinks(h: Links, t: int, links: set<Id>) {
    forall id :: Live(h, id, t) <==> id in links
  }

  function Record(h: Links, now: seq<Id>, before: seq<Id>, isNew: bool, at: int): Links {
    match AddAll(h, LinkRows(now, before, isNew), at)
    case Some(added) => added
    case None => h
  }

  lemma RecordFits(h: Links, now: seq<Id>, before: seq<Id>, isNew: bool, clock: int, at: int)
    requires UpTo(h, clock) && clock < at && DistinctIds(now) && DistinctIds(before)
    ensures AddAll(h, LinkRows(now, before, isNew), at).Some?
    ensures UpTo(Record(h, now, before, isNew, at), at)
  {
    var rows := LinkRows(now, before, isNew);
    if !Passed(now, before, isNew) {
      RowsExactly(now, before, isNew, 0);
    }
    AddAllExactly(h, rows, at);
    var h2 := Record(h, now, before, isNew, at);
    forall id, b | (id, b) in h2
      ensures b <= at
    {
      AddAllContent(h, rows, at, (id, b));
    }
  }

  /** What a link is told to be after a flush, whatever the history was like before. */
  lemma RecordTells(h: Links, now: seq<Id>, before: seq<Id>, isNew: bool, clock: int, at: int, id: Id)
    requires UpTo(h, clock) && clock < at && DistinctIds(now) && DistinctIds(before)
    ensures Live(Record(h, now, before, isNew, at), id, at) <==>
            if Passed(now, before, isNew) then Live(h, id, clock)
            else id in now || (Live(h, id, clock) && id !in before)
  {
    RecordFits(h, now, before, isNew, clock, at);
    var rows, h2 := LinkRows(now, before, isNew), Record(h, now, before, isNew, at);
    forall b: int
      ensures (id, b) in h2 <==> (id, b) in h || (b == at && id in RowIds(rows))
      ensures (id, b) in h ==> (id, b) in h2 && h2[(id, b)] == h[(id, b)]
    {
      AddAllContent(h, rows, at, (id, b));
    }
    if id in RowIds(rows) {
      var i :| 0 <= i < |rows| && RowIds(rows)[i] == id;
      AddAllRow(h, rows, at, i);
      RowsExactly(now, before, isNew, id);
      assert Row(id, (), rows[i].deletion) in rows;
      assert Newest(h2, id, at, at);
    } else {
      Untouched(h, h2, clock, at, id);
      NotListed(now, before, isNew, id);
    }
  }

  lemma NotListed(now: seq<Id>, before: seq<Id>, isNew: bool, id: Id)
    requires DistinctIds(now) && DistinctIds(before) && id !in RowIds(LinkRows(now, before, isNew))
    ensures !Passed(now, before, isNew) ==> id !in now && id !in before
  {
    if !Passed(now, before, isNew) {
      RemovedDistinct(before, now);
      IdsDistinct(now, Minus(before, now));
      var all := now + Minus(before, now);
      assert forall x :: x in all <==> x in now || x in Minus(before, now);
    }
  }

  lemma Untouched(h: Links, h2: Links, clock: int, at: int, id: Id)
    requires UpTo(h, clock) && clock < at
    requires forall b: int :: (id, b) in h2 <==> (id, b) in h
    requires forall b: int :: (id, b) in h ==> h2[(id, b)] == h[(id, b)]
    ensures Live(h2, id, at) <==> Live(h, id, clock)
  {
  }

  lemma PastLive(h: Links, now: seq<Id>, before: seq<Id>, isNew: bool, at: int, t: int, id: Id)
    requires t < at
    ensures Live(Record(h, now, before, isNew, at), id, t) <==> Live(h, id, t)
  {
    var rows, h2 := LinkRows(now, before, isNew), Record(h, now, before, isNew, at);
    if AddAll(h, rows, at).Some? {
      forall b: int
        ensures b <= t && (id, b) in h2 <==> b <= t && (id, b) in h
        ensures (id, b) in h ==> (id, b) in h2 && h2[(id, b)] == h[(id, b)]
      {
        AddAllContent(h, rows, at, (id, b));
      }
      forall b
        ensures Newest(h2, id, t, b) <==> Newest(h, id, t, b)
      {
      }
    }
  }

  // ---------------------------------------------------------------- whole runs

  /** The collection as it was at each flush, the first being the one that created the object. */
  datatype Save = Save(at: int, members: seq<Id>)

  ghost predicate Run(saves: seq<Save>) {
    && (forall i, j :: 0 <= i < j < |saves| ==> saves[i].at < saves[j].at)
    && (forall i :: 0 <= i < |saves| ==> DistinctIds(saves[i].members))
  }

  function Before(saves: seq<Save>, k: nat): seq<Id>
    requires k < |saves|
  {
    if k == 0 then [] else saves[k - 1].members
  }

  /** The history after the first `n` flushes. */
  function Recorded(saves: seq<Save>, n: nat): Links
    requires n <= |saves|
  {
    if n == 0 then map[]
    else Record(Recorded(saves, n - 1), saves[n - 1].members, Before(saves, n - 1), n == 1, saves[n - 1].at)
  }

  /** The history tells the collection as it was at every flush. */
  ghost predicate AlwaysTold(saves: seq<Save>) {
    forall k :: 0 <= k < |saves| ==>
      TellsLinks(Recorded(saves, |saves|), saves[k].at, Members(saves[k].members))
  }

  ghost predicate Emptied(saves: seq<Save>, k: int) {
    0 < k < |saves| && saves[k].members == [] && saves[k - 1].members != []
  }

  function Clock(saves: seq<Save>, n: nat): int
    requires n <= |saves|
  {
    if n > 0 then saves[n - 1].at else if saves == [] then 0 else saves[0].at - 1
  }

  lemma {:induction false} RecordedUpTo(saves: seq<Save>, n: nat)
    requires Run(saves) && n <= |saves|
    ensures UpTo(Recorded(saves, n), Clock(saves, n))
  {
    if n > 0 {
      RecordedUpTo(saves, n - 1);
      RecordFits(Recorded(saves, n - 1), saves[n - 1].members, Before(saves, n - 1), n == 1,
                 Clock(saves, n - 1), saves[n - 1].at);
    }
  }

  /** The links told to be live at `t` by the history of the first `n` flushes. */
  ghost function Told(saves: seq<Save>, n: nat, t: int): iset<Id>
    requires n <= |saves|
  {
    iset id | Live(Recorded(saves, n), id, t)
  }

  lemma StepKeeps(saves: seq<Save>, n: nat, t: int)
    requires 0 < n <= |saves| && t < saves[n - 1].at
    ensures Told(saves, n, t) == Told(saves, n - 1, t)
  {
    forall id
      ensures id in Told(saves, n, t) <==> id in Told(saves, n - 1, t)
    {
      PastLive(Recorded(saves, n - 1), saves[n - 1].members, Before(saves, n - 1), n == 1,
               saves[n - 1].at, t, id);
    }
  }

  lemma {:induction false} LaterKeep(saves: seq<Save>, k: nat, n: nat, t: int)
    requires k <= n <= |saves| && forall m :: k <= m < n ==> t < saves[m].at
    ensures Told(saves, n, t) == Told(saves, k, t)
    decreases n
  {
    if k < n {
      LaterKeep(saves, k, n - 1, t);
      StepKeeps(saves, n, t);
    }
  }

  lemma EarlierTold(saves: seq<Save>, k: nat, id: Id)
    requires Run(saves) && k < |saves|
    ensures Live(Recorded(saves, |saves|), id, saves[k].at) == Live(Recorded(saves, k + 1), id, saves[k].at)
  {
    LaterKeep(saves, k + 1, |saves|, saves[k].at);
    assert id in Told(saves, |saves|, saves[k].at) <==> id in Told(saves, k + 1, saves[k].at);
  }

  lemma SameMembers(before: seq<Id>, now: seq<Id>, id: Id)
    requires !Changed(Coll(before, now))
    ensures id in before <==> id in now
  {
    assert id in before <==> id in Members(before);
    assert id in now <==> id in Members(now);
  }

  lemma TellsAfter(saves: seq<Save>, n: nat, id: Id)
    requires Run(saves) && 0 < n <= |saves|
    ensures var now, before := saves[n - 1].members, Before(saves, n - 1);
            Live(Recorded(saves, n), id, saves[n - 1].at) <==>
            if Passed(now, before, n == 1) then Live(Recorded(saves, n - 1), id, Clock(saves, n - 1))
            else id in now || (Live(Recorded(saves, n - 1), id, Clock(saves, n - 1)) && id !in before)
  {
    RecordedUpTo(saves, n - 1);
    RecordTells(Recorded(saves, n - 1), saves[n - 1].members, Before(saves, n - 1), n == 1,
                Clock(saves, n - 1), saves[n - 1].at, id);
  }

  /** At its last flush a history tells at least the links that are there. */
  lemma {:induction false} AtLeast(saves: seq<Save>, n: nat, id: Id)
    requires Run(saves) && 0 < n <= |saves| && id in saves[n - 1].members
    ensures Live(Recorded(saves, n), id, saves[n - 1].at)
  {
    TellsAfter(saves, n, id);
    if Passed(saves[n - 1].members, Before(saves, n - 1), n == 1) {
      SameMembers(Before(saves, n - 1), saves[n - 1].members, id);
      AtLeast(saves, n - 1, id);
    }
  }

  /** It tells no others as long as the collection was never emptied. */
  lemma {:induction false} AtMost(saves: seq<Save>, n: nat, id: Id)
    requires Run(saves) && 0 < n <= |saves| && forall k :: 0 < k < n ==> !Emptied(saves, k)
    requires Live(Recorded(saves, n), id, saves[n - 1].at)
    ensures id in saves[n - 1].members
  {
    TellsAfter(saves, n, id);
    if n > 1 && Live(Recorded(saves, n - 1), id, Clock(saves, n - 1)) {
      AtMost(saves, n - 1, id);
      NotEmptied(saves, n, id);
    }
  }

  lemma NotEmptied(saves: seq<Save>, n: nat, id: Id)
    requires 1 < n <= |saves| && !Emptied(saves, n - 1)
    ensures Passed(saves[n - 1].members, Before(saves, n - 1), n == 1) ==>
              (id in saves[n - 1].members <==> id in saves[n - 2].members)
  {
    if Passed(saves[n - 1].members, Before(saves, n - 1), n == 1) {
      SameMembers(Before(saves, n - 1), saves[n - 1].members, id);
    }
  }

  lemma LastTold(saves: seq<Save>, n: nat, id: Id)
    requires Run(saves) && 0 < n <= |saves| && forall k :: 0 < k < n ==> !Emptied(saves, k)
    ensures Live(Recorded(saves, n), id, saves[n - 1].at) <==> id in saves[n - 1].members
  {
    if id in saves[n - 1].members {
      AtLeast(saves, n, id);
    } else if Live(Recorded(saves, n), id, saves[n - 1].at) {
      AtMost(saves, n, id);
    }
  }

  lemma ToldAt(saves: seq<Save>, k: nat, id: Id)
    requires Run(saves) && k < |saves| && forall j :: 0 < j <= k ==> !Emptied(saves, j)
    ensures Live(Recorded(saves, |saves|), id, saves[k].at) <==> id in saves[k].members
  {
    LastTold(saves, k + 1, id);
    EarlierTold(saves, k, id);
  }

  /** Every flush is told rightly, and stays so, in exactly the runs in which no flush finds a
      collection emptied that held links before. */
  lemma ToldExactly(saves: seq<Save>)
    requires Run(saves)
    ensures AlwaysTold(saves) <==> forall k :: !Emptied(saves, k)
  {
    if k :| Emptied(saves, k) {
      LostLink(saves, k);
    } else {
      forall k, id | 0 <= k < |saves|
        ensures Live(Recorded(saves, |saves|), id, saves[k].at) <==> id in Members(saves[k].members)
      {
        ToldAt(saves, k, id);
      }
    }
  }

  /** A link that was there when the collection was emptied is told as live all the same. */
  lemma LostLink(saves: seq<Save>, k: int)
    requires Run(saves) && Emptied(saves, k)
    ensures !TellsLinks(Recorded(saves, |saves|), saves[k].at, Members(saves[k].members))
  {
    var id := saves[k - 1].members[0];
    AtLeast(saves, k, id);
    TellsAfter(saves, k + 1, id);
    EarlierTold(saves, k, id);
  }

  /** The shortest run that loses one: a link made by one flush and removed by the next. */
  lemma LastLinkLost()
    ensures var saves := [Save(1, [7]), Save(2, [])];
            Run(saves) && !TellsLinks(Recorded(saves, 2), 2, {})
  {
    var saves := [Save(1, [7]), Save(2, [])];
    assert Members(saves[1].members) == {};
    LostLink(saves, 1);
  }
}
