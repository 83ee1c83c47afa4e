/** The history alone tells the table at every flush. */
module EditHistoryProofs {
  import opened Wrappers
  import opened EditHistory

  // ---------------------------------------------------------------- what a history tells

  /** `at` is the latest timestamp, up to `t`, of a row for `id`. */
  ghost predicate Newest<V>(h: History<V>, id: Id, t: int, at: int) {
    && (id, at) in h && at <= t
    && forall b :: (id, b) in h && b <= t ==> b <= at
  }

  /** Reading only rows up to `t`: an object is in the table, with exactly these columns, when
      its newest row says so; it is absent when it has no row or its newest is a deletion. */
  ghost predicate Tells<V>(h: History<V>, t: int, table: map<Id, V>) {
    && (forall id :: id in table ==>
          exists at :: Newest(h, id, t, at) && h[(id, at)] == Version(table[id], false))
    && (forall id, at :: id !in table && Newest(h, id, t, at) ==> h[(id, at)].deletion)
  }

  /** A history tells one table only. */
  lemma TellsOne<V>(h: History<V>, t: int, a: map<Id, V>, b: map<Id, V>)
    requires Tells(h, t, a) && Tells(h, t, b)
    ensures a == b
  {
  }

  ghost predicate UpTo<V>(h: History<V>, t: int) {
    forall id, at :: (id, at) in h ==> at <= t
  }

  // ---------------------------------------------------------------- the ids of a flush

  function RowIds<V>(rows: seq<Row<V>>): (r: seq<Id>)
    ensures |r| == |rows| && forall i :: 0 <= i < |r| ==> r[i] == rows[i].id
  {
    if rows == [] then [] else [rows[0].id] + RowIds(rows[1..])
  }

  /** The objects versioned on their own account. */
  function OwnIds<V(==)>(s: Session<V>, work: seq<(Id, Kind)>): seq<Id> {
    if work == [] then []
    else (if Due(s, work[0]) then [work[0].0] else []) + OwnIds(s, work[1..])
  }

  /** The members pulled in because a collection they stayed in has changed. */
  function PulledIds<V(==)>(s: Session<V>, work: seq<(Id, Kind)>): seq<Id> {
    if work == [] then []
    else (if Due(s, work[0]) then Pulled(CollsOf(s, work[0].0)) else []) + PulledIds(s, work[1..])
  }

  lemma RowIdsAppend<V>(a: seq<Row<V>>, b: seq<Row<V>>)
    ensures RowIds(a + b) == RowIds(a) + RowIds(b)
  {
  }

  lemma RowsForIds<V>(s: Session<V>, w: (Id, Kind))
    requires Ready(s, [w])
    ensures RowIds(RowsFor(s, w)) == if Due(s, w) then [w.0] + Pulled(CollsOf(s, w.0)) else []
  {
  }

  /** The ids of the rows, in the order they are written. */
  function AllIds<V(==)>(s: Session<V>, work: seq<(Id, Kind)>): seq<Id> {
    if work == [] then []
    else (if Due(s, work[0]) then [work[0].0] + Pulled(CollsOf(s, work[0].0)) else [])
         + AllIds(s, work[1..])
  }

  lemma {:induction false} FlushRowIds<V>(s: Session<V>, work: seq<(Id, Kind)>)
    requires Ready(s, work)
    ensures RowIds(FlushRows(s, work)) == AllIds(s, work)
    decreases |work|
  {
    if work != [] {
      FlushRowIds(s, work[1..]);
      RowsForIds(s, work[0]);
      RowIdsAppend(RowsFor(s, work[0]), FlushRows(s, work[1..]));
    }
  }

  lemma {:induction false} AllIdsCount<V>(s: Session<V>, work: seq<(Id, Kind)>)
    ensures multiset(AllIds(s, work)) == multiset(OwnIds(s, work)) + multiset(PulledIds(s, work))
    decreases |work|
  {
    if work != [] {
      AllIdsCount(s, work[1..]);
    }
  }

  lemma DistinctCons(first: Id, rest: seq<Id>)
    ensures DistinctIds([first] + rest) <==> first !in rest && DistinctIds(rest)
  {
    var ids := [first] + rest;
    assert forall i :: 0 <= i < |rest| ==> ids[i + 1] == rest[i];
    if DistinctIds(ids) {
      forall x | x in rest
        ensures x != first
      {
        var k :| 0 <= k < |rest| && rest[k] == x;
        assert ids[k + 1] == x && ids[0] == first;
      }
    }
  }

  lemma {:induction false} DistinctCounts(ids: seq<Id>)
    ensures DistinctIds(ids) <==> forall x :: multiset(ids)[x] <= 1
  {
    if ids != [] {
      var first, rest := ids[0], ids[1..];
      assert ids == [first] + rest;
      DistinctCons(first, rest);
      DistinctCounts(rest);
      CountCons(first, rest);
    }
  }

  lemma CountCons(first: Id, rest: seq<Id>)
    ensures (forall x :: multiset([first] + rest)[x] <= 1)
            <==> first !in rest && forall x :: multiset(rest)[x] <= 1
  {
    var all := multiset([first] + rest);
    assert all == multiset{first} + multiset(rest);
    assert first in rest <==> multiset(rest)[first] >= 1;
    assert all[first] == 1 + multiset(rest)[first];
    assert forall x :: x != first ==> all[x] == multiset(rest)[x];
  }

  lemma {:induction false} OwnIdsIn<V>(s: Session<V>, work: seq<(Id, Kind)>, x: Id)
    ensures x in OwnIds(s, work) <==> exists i :: 0 <= i < |work| && Due(s, work[i]) && work[i].0 == x
    decreases |work|
  {
    if work != [] {
      OwnIdsIn(s, work[1..], x);
      assert forall i :: 0 < i < |work| ==> work[i] == work[1..][i - 1];
    }
  }

  ghost predicate WorkDistinct(work: seq<(Id, Kind)>) {
    forall i, j :: 0 <= i < j < |work| ==> work[i].0 != work[j].0
  }

  lemma {:induction false} OwnIdsDistinct<V>(s: Session<V>, work: seq<(Id, Kind)>)
    requires WorkDistinct(work)
    ensures DistinctIds(OwnIds(s, work))
    decreases |work|
  {
    if work != [] {
      OwnIdsDistinct(s, work[1..]);
      OwnIdsIn(s, work[1..], work[0].0);
    }
  }

  /** No object has two reasons for a row: none is pulled in twice, none is both versioned
      itself and pulled in. */
  ghost predicate NoClash<V>(s: Session<V>, work: seq<(Id, Kind)>) {
    && DistinctIds(PulledIds(s, work))
    && forall x :: x in PulledIds(s, work) ==> x !in OwnIds(s, work)
  }

  lemma DistinctTogether(own: seq<Id>, pulled: seq<Id>, all: seq<Id>)
    requires DistinctIds(own) && multiset(all) == multiset(own) + multiset(pulled)
    ensures DistinctIds(all) <==> DistinctIds(pulled) && forall x :: x in pulled ==> x !in own
  {
    DistinctCounts(own);
    DistinctCounts(pulled);
    DistinctCounts(all);
    assert forall x :: multiset(all)[x] == multiset(own)[x] + multiset(pulled)[x];
    assert forall x :: x in own <==> x in multiset(own);
    assert forall x :: x in pulled <==> x in multiset(pulled);
  }

  lemma DistinctExactly<V>(s: Session<V>, work: seq<(Id, Kind)>)
    requires Ready(s, work) && WorkDistinct(work)
    ensures DistinctIds(RowIds(FlushRows(s, work))) <==> NoClash(s, work)
  {
    FlushRowIds(s, work);
    AllIdsCount(s, work);
    OwnIdsDistinct(s, work);
    DistinctTogether(OwnIds(s, work), PulledIds(s, work), AllIds(s, work));
  }

  // ---------------------------------------------------------------- adding the rows

  ghost predicate Fits<V>(h: History<V>, ids: seq<Id>, at: int) {
    DistinctIds(ids) && forall x :: x in ids ==> (x, at) !in h
  }

  lemma {:induction false} AddAllExactly<V>(h: History<V>, rows: seq<Row<V>>, at: int)
    ensures AddAll(h, rows, at).Some? <==> Fits(h, RowIds(rows), at)
    decreases |rows|
  {
    if rows != [] {
      var first, rest := rows[0].id, RowIds(rows[1..]);
      DistinctCons(first, rest);
      assert RowIds(rows) == [first] + rest;
      if (first, at) !in h {
        AddAllExactly(h[(first, at) := Version(rows[0].cols, rows[0].deletion)], rows[1..], at);
      }
    }
  }

  lemma {:induction false} AddAllContent<V>(h: History<V>, rows: seq<Row<V>>, at: int, key: (Id, int))
    requires AddAll(h, rows, at).Some?
    ensures var r := AddAll(h, rows, at).get;
            && (key in r <==> key in h || (key.1 == at && key.0 in RowIds(rows)))
            && (key in h ==> r[key] == h[key])
    decreases |rows|
  {
    if rows != [] {
      var h1 := h[(rows[0].id, at) := Version(rows[0].cols, rows[0].deletion)];
      AddAllContent(h1, rows[1..], at, key);
      assert RowIds(rows) == [rows[0].id] + RowIds(rows[1..]);
    }
  }

  lemma {:induction false} AddAllRow<V>(h: History<V>, rows: seq<Row<V>>, at: int, i: nat)
    requires AddAll(h, rows, at).Some? && i < |rows|
    ensures var r := AddAll(h, rows, at).get;
            (rows[i].id, at) in r && r[(rows[i].id, at)] == Version(rows[i].cols, rows[i].deletion)
    decreases |rows|
  {
    var h1 := h[(rows[0].id, at) := Version(rows[0].cols, rows[0].deletion)];
    if i > 0 {
      AddAllRow(h1, rows[1..], at, i - 1);
    } else {
      AddAllContent(h1, rows[1..], at, (rows[0].id, at));
    }
  }

  // ---------------------------------------------------------------- what the rows say

  lemma {:induction false} RowSays<V>(s: Session<V>, work: seq<(Id, Kind)>, i: nat)
    requires Ready(s, work) && i < |FlushRows(s, work)|
    ensures var row := FlushRows(s, work)[i];
            && row.id in s.current && row.cols == s.current[row.id]
            && (row.deletion ==> (row.id, Deleted) in work)
    decreases |work|
  {
    var first := RowsFor(s, work[0]);
    if i < |first| {
      assert FlushRows(s, work)[i] == first[i];
    } else {
      assert FlushRows(s, work)[i] == FlushRows(s, work[1..])[i - |first|];
      RowSays(s, work[1..], i - |first|);
    }
  }

  lemma ReadyParts<V>(s: Session<V>, a: seq<(Id, Kind)>, b: seq<(Id, Kind)>)
    requires Ready(s, a + b)
    ensures Ready(s, a) && Ready(s, b)
  {
    assert forall i :: 0 <= i < |a| ==> (a + b)[i] == a[i];
    assert forall i :: 0 <= i < |b| ==> (a + b)[|a| + i] == b[i];
  }

  lemma FlushRowsHead<V>(s: Session<V>, w: (Id, Kind), work: seq<(Id, Kind)>)
    requires Ready(s, [w] + work)
    ensures Ready(s, [w]) && Ready(s, work)
    ensures FlushRows(s, [w] + work) == RowsFor(s, w) + FlushRows(s, work)
  {
    ReadyParts(s, [w], work);
    assert ([w] + work)[1..] == work;
  }

  lemma FirstRow<V>(s: Session<V>, w: (Id, Kind))
    requires Ready(s, [w]) && Due(s, w)
    ensures RowsFor(s, w) != [] && w.0 in s.current
    ensures RowsFor(s, w)[0] == Row(w.0, s.current[w.0], w.1.Deleted?)
  {
    assert [w][0] == w;
  }

  lemma {:induction false} DueRow<V>(s: Session<V>, work: seq<(Id, Kind)>, k: nat) returns (i: nat)
    requires Ready(s, work) && k < |work| && Due(s, work[k])
    ensures i < |FlushRows(s, work)|
    ensures FlushRows(s, work)[i] == Row(work[k].0, s.current[work[k].0], work[k].1.Deleted?)
    decreases |work|
  {
    var w, rest := work[0], work[1..];
    assert work == [w] + rest;
    FlushRowsHead(s, w, rest);
    if k == 0 {
      FirstRow(s, w);
      i := 0;
    } else {
      var j := DueRow(s, rest, k - 1);
      i := |RowsFor(s, w)| + j;
      SecondPart(RowsFor(s, w), FlushRows(s, rest), j);
    }
  }

  lemma SecondPart<V>(a: seq<Row<V>>, b: seq<Row<V>>, j: nat)
    requires j < |b|
    ensures |a| + j < |a + b| && (a + b)[|a| + j] == b[j]
  {
  }

  lemma DueHasRow<V>(s: Session<V>, work: seq<(Id, Kind)>, k: nat)
    requires Ready(s, work) && k < |work|
    ensures Due(s, work[k]) ==> work[k].0 in RowIds(FlushRows(s, work))
  {
    if Due(s, work[k]) {
      var i := DueRow(s, work, k);
      assert RowIds(FlushRows(s, work))[i] == work[k].0;
    }
  }

  // ---------------------------------------------------------------- one flush

  function AfterTable<V>(s: Session<V>): map<Id, V> {
    map x | x in s.current && x !in s.deleted :: s.current[x]
  }

  lemma WorkMember<V>(s: Session<V>, w: (Id, Kind))
    ensures w in Work(s) <==>
            match w.1 case New => w.0 in s.created case Dirty => w.0 in s.dirty case Deleted => w.0 in s.deleted
  {
  }

  lemma WorkIds<V>(s: Session<V>)
    requires DistinctIds(s.created + s.dirty + s.deleted)
    ensures WorkDistinct(Work(s))
  {
    var ids, work := s.created + s.dirty + s.deleted, Work(s);
    assert |work| == |ids|;
    forall i | 0 <= i < |work|
      ensures work[i].0 == ids[i]
    {
      TaggedAt(s.created, s.dirty, s.deleted, i);
    }
  }

  lemma NoClashExactly<V>(s: Session<V>, h: History<V>, before: int, at: int)
    requires SessionInv(s) && Ready(s, Work(s)) && UpTo(h, before) && before < at
    ensures AddAll(h, FlushRows(s, Work(s)), at).Some? <==> NoClash(s, Work(s))
  {
    WorkIds(s);
    AddAllExactly(h, FlushRows(s, Work(s)), at);
    DistinctExactly(s, Work(s));
  }

  /** The row an object gets, if any, says what became of it. */
  lemma FlushedRow<V>(s: Session<V>, rows: seq<Row<V>>, i: nat)
    requires SessionInv(s) && Ready(s, Work(s)) && rows == FlushRows(s, Work(s))
    requires DistinctIds(RowIds(rows)) && i < |rows|
    ensures rows[i].id in s.current && rows[i].cols == s.current[rows[i].id]
    ensures rows[i].deletion <==> rows[i].id in s.deleted
  {
    var id, work := rows[i].id, Work(s);
    RowSays(s, work, i);
    WorkMember(s, (id, Deleted));
    if id in s.deleted {
      var k :| 0 <= k < |work| && work[k] == (id, Deleted);
      var j := DueRow(s, work, k);
      SameRow(rows, i, j);
    }
  }

  lemma SameRow<V>(rows: seq<Row<V>>, i: nat, j: nat)
    requires DistinctIds(RowIds(rows)) && i < |rows| && j < |rows| && rows[i].id == rows[j].id
    ensures i == j
  {
    assert RowIds(rows)[i] == RowIds(rows)[j];
  }

  /** An object without a row is as it was. */
  lemma NoRow<V>(s: Session<V>, id: Id)
    requires SessionInv(s) && Ready(s, Work(s)) && id !in RowIds(FlushRows(s, Work(s)))
    ensures id !in s.deleted && (id in s.table <==> id in s.current)
    ensures id in s.table ==> s.current[id] == s.table[id]
  {
    var work := Work(s);
    forall kind | (id, kind) in work
      ensures !Due(s, (id, kind))
    {
      var k :| 0 <= k < |work| && work[k] == (id, kind);
      DueHasRow(s, work, k);
    }
    WorkMember(s, (id, New));
    WorkMember(s, (id, Dirty));
    WorkMember(s, (id, Deleted));
  }

  /** After a flush the history tells the new table, at the time of the flush. */
  lemma FlushTells<V>(s: Session<V>, h: History<V>, before: int, at: int)
    requires SessionInv(s) && Ready(s, Work(s)) && UpTo(h, before) && before < at
    requires Tells(h, before, s.table)
    requires AddAll(h, FlushRows(s, Work(s)), at).Some?
    ensures var h2 := AddAll(h, FlushRows(s, Work(s)), at).get;
            UpTo(h2, at) && Tells(h2, at, AfterTable(s))
  {
    var rows := FlushRows(s, Work(s));
    var h2, table := AddAll(h, rows, at).get, AfterTable(s);
    AddAllExactly(h, rows, at);
    forall id, b
      ensures (id, b) in h2 <==> (id, b) in h || (b == at && id in RowIds(rows))
      ensures (id, b) in h ==> h2[(id, b)] == h[(id, b)]
    {
      AddAllContent(h, rows, at, (id, b));
    }
    forall id | id in table
      ensures exists b :: Newest(h2, id, at, b) && h2[(id, b)] == Version(table[id], false)
    {
      OneTold(s, h, h2, before, at, id);
    }
    forall id, b | id !in table && Newest(h2, id, at, b)
      ensures h2[(id, b)].deletion
    {
      OneTold(s, h, h2, before, at, id);
    }
  }

  lemma OneTold<V>(s: Session<V>, h: History<V>, h2: History<V>, before: int, at: int, id: Id)
    requires SessionInv(s) && Ready(s, Work(s)) && UpTo(h, before) && before < at
    requires Tells(h, before, s.table)
    requires AddAll(h, FlushRows(s, Work(s)), at) == Some(h2)
    requires forall b :: (id, b) in h2 <==>
               (id, b) in h || (b == at && id in RowIds(FlushRows(s, Work(s))))
    requires forall b :: (id, b) in h ==> h2[(id, b)] == h[(id, b)]
    ensures var table := AfterTable(s);
            if id in table
            then exists b :: Newest(h2, id, at, b) && h2[(id, b)] == Version(table[id], false)
            else forall b :: Newest(h2, id, at, b) ==> h2[(id, b)].deletion
  {
    var rows := FlushRows(s, Work(s));
    AddAllExactly(h, rows, at);
    if id in RowIds(rows) {
      var i :| 0 <= i < |rows| && RowIds(rows)[i] == id;
      FlushedRow(s, rows, i);
      AddAllRow(h, rows, at, i);
      assert Newest(h2, id, at, at);
    } else {
      NoRow(s, id);
      forall b
        ensures Newest(h2, id, at, b) <==> Newest(h, id, before, b)
      {
      }
      if id in s.table {
        var b :| Newest(h, id, before, b) && h[(id, b)] == Version(s.table[id], false);
        assert Newest(h2, id, at, b);
      }
    }
  }

  /** Nothing a later flush writes changes what the history tells of an earlier time. */
  lemma PastKept<V>(h: History<V>, rows: seq<Row<V>>, at: int, t: int, table: map<Id, V>)
    requires AddAll(h, rows, at).Some? && t < at && Tells(h, t, table)
    ensures Tells(AddAll(h, rows, at).get, t, table)
  {
    var h2 := AddAll(h, rows, at).get;
    forall id: Id, c: int
      ensures (id, c) in h2 && c <= t <==> (id, c) in h && c <= t
      ensures (id, c) in h ==> (id, c) in h2 && h2[(id, c)] == h[(id, c)]
    {
      AddAllContent(h, rows, at, (id, c));
    }
    forall id: Id, b: int
      ensures Newest(h2, id, t, b) <==> Newest(h, id, t, b)
    {
    }
    forall id | id in table
      ensures exists b :: Newest(h2, id, t, b) && h2[(id, b)] == Version(table[id], false)
    {
      var b :| Newest(h, id, t, b) && h[(id, b)] == Version(table[id], false);
      assert Newest(h2, id, t, b);
    }
  }
}
