/** An editable session as an object: edits accumulate, a flush records and commits them. */
module EditSessions {
  import opened Wrappers
  import opened Sequences
  import opened EditHistory
  import opened EditHistoryProofs
  import opened EditHistoryRows

  function Reloaded(cs: seq<Coll>, gone: seq<Id>): (r: seq<Coll>)
    ensures |r| == |cs|
    ensures forall i :: 0 <= i < |r| ==> r[i] == Coll(Minus(cs[i].now, gone), Minus(cs[i].now, gone))
  {
    if cs == [] then []
    else [Coll(Minus(cs[0].now, gone), Minus(cs[0].now, gone))] + Reloaded(cs[1..], gone)
  }

  function Reverted(cs: seq<Coll>): (r: seq<Coll>)
    ensures |r| == |cs| && forall i :: 0 <= i < |r| ==> r[i] == Coll(cs[i].before, cs[i].before)
  {
    if cs == [] then [] else [Coll(cs[0].before, cs[0].before)] + Reverted(cs[1..])
  }

  lemma {:induction false} FlushRowsAppend<V>(s: Session<V>, a: seq<(Id, Kind)>, b: seq<(Id, Kind)>)
    requires Ready(s, a + b)
    ensures Ready(s, a) && Ready(s, b)
    ensures FlushRows(s, a + b) == FlushRows(s, a) + FlushRows(s, b)
    decreases |a|
  {
    ReadyParts(s, a, b);
    if a == [] {
      assert a + b == b;
    } else {
      var w, rest := a[0], a[1..];
      assert a == [w] + rest;
      assert a + b == [w] + (rest + b);
      FlushRowsHead(s, w, rest + b);
      FlushRowsHead(s, w, rest);
      FlushRowsAppend(s, rest, b);
      AppendAssociative(RowsFor(s, w), FlushRows(s, rest), FlushRows(s, b));
    }
  }

  // ---------------------------------------------------------------- edits keep a session well formed

  lemma OneMore(ids: seq<Id>, more: seq<Id>, id: Id)
    requires DistinctIds(ids) && id !in ids && multiset(more) == multiset(ids) + multiset{id}
    ensures DistinctIds(more)
  {
    DistinctCounts(ids);
    DistinctCounts(more);
  }

  lemma NoMore(ids: seq<Id>, fewer: seq<Id>)
    requires DistinctIds(ids) && multiset(fewer) <= multiset(ids)
    ensures DistinctIds(fewer)
  {
    DistinctCounts(ids);
    DistinctCounts(fewer);
  }

  lemma {:induction false} MinusFewer(ids: seq<Id>, gone: seq<Id>)
    ensures multiset(Minus(ids, gone)) <= multiset(ids)
  {
    if ids != [] {
      MinusFewer(ids[1..], gone);
      assert ids == [ids[0]] + ids[1..];
    }
  }

  function Marked<V>(s: Session<V>, id: Id): Session<V> {
    if id in s.created || id in s.dirty then s else s.(dirty := s.dirty + [id])
  }

  lemma MarkedInv<V>(s: Session<V>, id: Id)
    requires SessionInv(s) && id in s.current && id !in s.deleted
    ensures SessionInv(Marked(s, id))
  {
    if id !in s.created && id !in s.dirty {
      OneMore(s.created + s.dirty + s.deleted, s.created + (s.dirty + [id]) + s.deleted, id);
    }
  }

  lemma AddedInv<V>(s: Session<V>, id: Id, v: V, cs: seq<Coll>)
    requires SessionInv(s) && id !in s.current && forall i :: 0 <= i < |cs| ==> cs[i] == Coll([], [])
    ensures SessionInv(s.(current := s.current[id := v], colls := s.colls[id := cs],
                          created := s.created + [id]))
  {
    OneMore(s.created + s.dirty + s.deleted, (s.created + [id]) + s.dirty + s.deleted, id);
  }

  lemma AssignedInv<V>(s: Session<V>, id: Id, v: V)
    requires SessionInv(s) && id in s.current && (id in s.created || id in s.dirty)
    ensures SessionInv(s.(current := s.current[id := v]))
  {
  }

  function WithMembers(cs: seq<Coll>, i: nat, members: seq<Id>): seq<Coll>
    requires i < |cs|
  {
    cs[i := cs[i].(now := members)]
  }

  lemma MembersInv<V>(s: Session<V>, id: Id, i: nat, members: seq<Id>)
    requires SessionInv(s) && id in s.colls && i < |s.colls[id]|
    requires forall y :: y in members ==> y in s.current
    ensures SessionInv(s.(colls := s.colls[id := WithMembers(s.colls[id], i, members)]))
  {
  }

  lemma DeletedInv<V>(s: Session<V>, id: Id)
    requires SessionInv(s) && id in s.table && id !in s.deleted
    ensures SessionInv(s.(dirty := Minus(s.dirty, [id]), deleted := s.deleted + [id]))
  {
    var few := Minus(s.dirty, [id]);
    MinusFewer(s.dirty, [id]);
    NoMore(s.created + s.dirty + s.deleted, s.created + few + s.deleted);
    OneMore(s.created + few + s.deleted, s.created + few + (s.deleted + [id]), id);
  }

  /** A session with nothing pending, whose collections are as they were loaded. */
  function Fresh<V>(table: map<Id, V>, colls: map<Id, seq<Coll>>): Session<V> {
    Session(table, table, colls, {}, [], [], [])
  }

  function Kept(colls: map<Id, seq<Coll>>, gone: seq<Id>): map<Id, seq<Coll>> {
    map x | x in colls && x !in gone :: Reloaded(colls[x], gone)
  }

  function Undone<V>(colls: map<Id, seq<Coll>>, table: map<Id, V>): map<Id, seq<Coll>> {
    map x | x in colls && x in table :: Reverted(colls[x])
  }

  lemma KeptMember(colls: map<Id, seq<Coll>>, gone: seq<Id>, x: Id, i: nat, y: Id)
    requires x in Kept(colls, gone) && i < |Kept(colls, gone)[x]|
    requires y in Kept(colls, gone)[x][i].now || y in Kept(colls, gone)[x][i].before
    ensures x in colls && i < |colls[x]| && y in colls[x][i].now && y !in gone
  {
    assert Kept(colls, gone)[x] == Reloaded(colls[x], gone);
  }

  lemma KeptInv<V>(s: Session<V>)
    requires SessionInv(s)
    ensures SessionInv(Fresh(AfterTable(s), Kept(s.colls, s.deleted)))
  {
    var colls: map<Id, seq<Coll>>, table := Kept(s.colls, s.deleted), AfterTable(s);
    forall x: Id, i: int, y: Id | x in colls && 0 <= i < |colls[x]|
                                  && (y in colls[x][i].now || y in colls[x][i].before)
      ensures y in table
    {
      KeptMember(s.colls, s.deleted, x, i, y);
    }
  }

  lemma UndoneInv<V>(s: Session<V>)
    requires SessionInv(s)
    ensures SessionInv(Fresh(s.table, Undone(s.colls, s.table)))
  {
  }

  method VersionAll<V(==)>(s: Session<V>, ids: seq<Id>, kind: Kind) returns (rows: seq<Row<V>>)
    requires Ready(s, Tag(ids, kind))
    ensures rows == FlushRows(s, Tag(ids, kind))
  {
    rows := [];
    var todo := ids;
    while todo != []
      invariant Ready(s, Tag(todo, kind))
      invariant rows + FlushRows(s, Tag(todo, kind)) == FlushRows(s, Tag(ids, kind))
      decreases |todo|
    {
      assert Tag(todo, kind)[0] == (todo[0], kind) && Tag(todo, kind)[1..] == Tag(todo[1..], kind);
      assert [(todo[0], kind)][0] == (todo[0], kind);
      var one := CreateVersion(s, todo[0], kind);
      AppendAssociative(rows, one, FlushRows(s, Tag(todo[1..], kind)));
      rows := rows + one;
      todo := todo[1..];
    }
    assert rows + [] == rows;
  }

  /** The history tells the current table, and the table of every flush so far. */
  ghost predicate HistoryInv<V>(h: History<V>, clock: int, table: map<Id, V>, past: seq<(int, map<Id, V>)>) {
    && UpTo(h, clock)
    && Tells(h, clock, table)
    && forall k :: 0 <= k < |past| ==> past[k].0 <= clock && Tells(h, past[k].0, past[k].1)
  }

  lemma FlushInv<V>(s: Session<V>, h: History<V>, clock: int, past: seq<(int, map<Id, V>)>, at: int)
    requires SessionInv(s) && Ready(s, Work(s)) && HistoryInv(h, clock, s.table, past) && clock < at
    ensures AddAll(h, FlushRows(s, Work(s)), at).Some? <==> OneReason(s)
    ensures OneReason(s) ==>
              HistoryInv(AddAll(h, FlushRows(s, Work(s)), at).get, at, AfterTable(s),
                         past + [(at, AfterTable(s))])
  {
    var rows := FlushRows(s, Work(s));
    FlushExactly(s, h, clock, at);
    if OneReason(s) {
      FlushTells(s, h, clock, at);
      forall k | 0 <= k < |past|
        ensures Tells(AddAll(h, rows, at).get, past[k].0, past[k].1)
      {
        PastKept(h, rows, at, past[k].0, past[k].1);
      }
    }
  }

  /** The rows of a flush: for which objects, and what they say; none that was there is touched. */
  ghost predicate RowsAdded<V>(s: Session<V>, h: History<V>, h2: History<V>, at: int) {
    && (forall y: Id, t: int :: (y, t) in h2 <==> (y, t) in h || (t == at && HasRow(s, y)))
    && (forall y: Id, t: int :: (y, t) in h ==> (y, t) in h2 && h2[(y, t)] == h[(y, t)])
    && (forall y: Id :: HasRow(s, y) ==>
          (y, at) in h2 && y in s.current && h2[(y, at)] == Version(s.current[y], y in s.deleted))
  }

  lemma FlushAdds<V>(s: Session<V>, h: History<V>, before: int, at: int)
    requires SessionInv(s) && Ready(s, Work(s)) && UpTo(h, before) && before < at
    requires AddAll(h, FlushRows(s, Work(s)), at).Some?
    ensures RowsAdded(s, h, AddAll(h, FlushRows(s, Work(s)), at).get, at)
  {
    forall y: Id, t: int
      ensures var h2 := AddAll(h, FlushRows(s, Work(s)), at).get;
              && ((y, t) in h2 <==> (y, t) in h || (t == at && HasRow(s, y)))
              && ((y, t) in h ==> h2[(y, t)] == h[(y, t)])
              && (HasRow(s, y) ==>
                    (y, at) in h2 && y in s.current && h2[(y, at)] == Version(s.current[y], y in s.deleted))
    {
      RowsExactly(s, h, before, at, y, t);
    }
  }

  /** Nothing is pending: another flush would write nothing. */
  ghost predicate Settled<V>(s: Session<V>) {
    && s.current == s.table && s.created == [] && s.dirty == [] && s.deleted == []
    && (forall x, i :: x in s.colls && 0 <= i < |s.colls[x]| ==> !Differs(s.colls[x][i]))
    && forall y :: !HasRow(s, y)
  }

  lemma KeptSettled<V>(s: Session<V>)
    requires SessionInv(s)
    ensures Settled(Fresh(AfterTable(s), Kept(s.colls, s.deleted)))
  {
  }

  class EditSession<V(==)> {
    var table: map<Id, V>
    var current: map<Id, V>
    var colls: map<Id, seq<Coll>>
    var touched: set<Id>
    var created: seq<Id>
    var dirty: seq<Id>
    var deleted: seq<Id>
    var history: History<V>
    /** The time of the last flush, and every flush so far with the table it left. */
    ghost var clock: int
    ghost var snapshots: seq<(int, map<Id, V>)>

    ghost function View(): Session<V>
      reads this
    {
      Session(table, current, colls, touched, created, dirty, deleted)
    }

    /** The history tells the table at the time of every flush so far. */
    ghost predicate Valid()
      reads this
    {
      SessionInv(View()) && HistoryInv(history, clock, table, snapshots)
    }

    constructor (now: int)
      ensures Valid() && table == map[] && snapshots == [] && clock == now
    {
      table, current, colls, touched := map[], map[], map[], {};
      created, dirty, deleted, history := [], [], [], map[];
      clock, snapshots := now, [];
    }

    /** A changed object is listed as dirty, once, unless it is new. */
    method MarkDirty(id: Id)
      requires SessionInv(View()) && id in current && id !in deleted
      modifies this`dirty
      ensures View() == Marked(old(View()), id) && SessionInv(View())
    {
      MarkedInv(View(), id);
      if id !in created && id !in dirty {
        dirty := dirty + [id];
      }
    }

    method Add(id: Id, v: V, relations: nat)
      requires Valid() && id !in current
      modifies this`current, this`created, this`colls
      ensures Valid()
      ensures current == old(current)[id := v] && created == old(created) + [id]
      ensures colls.Keys == old(colls).Keys + {id} && |colls[id]| == relations
      ensures forall x :: x in old(colls) && x != id ==> colls[x] == old(colls)[x]
      ensures forall i :: 0 <= i < relations ==> colls[id][i] == Coll([], [])
    {
      var cs := seq(relations, i => Coll([], []));
      AddedInv(View(), id, v, cs);
      current := current[id := v];
      created := created + [id];
      colls := colls[id := cs];
    }

    method Assign(id: Id, v: V)
      requires Valid() && id in current && id !in deleted
      modifies this`current, this`dirty
      ensures Valid()
      ensures View() == Marked(old(View()), id).(current := old(current)[id := v])
      ensures id !in table || table[id] != v ==> HasRow(View(), id)
    {
      MarkDirty(id);
      AssignedInv(View(), id, v);
      current := current[id := v];
    }

    /** A relation that gets no rows of its own has changed: the object is due all the same. */
    method Touch(id: Id)
      requires Valid() && id in current && id !in deleted
      modifies this`touched, this`dirty
      ensures Valid()
      ensures View() == Marked(old(View()), id).(touched := old(touched) + {id})
      ensures HasRow(View(), id)
    {
      MarkDirty(id);
      touched := touched + {id};
    }

    method SetMembers(id: Id, i: nat, members: seq<Id>)
      requires Valid() && id in colls && id !in deleted && i < |colls[id]|
      requires forall y :: y in members ==> y in current
      modifies this`colls, this`dirty
      ensures Valid()
      ensures View() == Marked(old(View()), id).(
                          colls := old(colls)[id := WithMembers(old(colls)[id], i, members)])
      ensures Differs(Coll(old(colls)[id][i].before, members)) ==> HasRow(View(), id)
    {
      MarkDirty(id);
      MembersInv(View(), id, i, members);
      colls := colls[id := WithMembers(colls[id], i, members)];
      assert WithMembers(old(colls)[id], i, members)[i] == Coll(old(colls)[id][i].before, members);
    }

    /** A deleted object is no longer listed as dirty. */
    method Delete(id: Id)
      requires Valid() && id in table && id !in deleted
      modifies this`deleted, this`dirty
      ensures Valid()
      ensures deleted == old(deleted) + [id] && dirty == Minus(old(dirty), [id])
      ensures HasRow(View(), id)
    {
      DeletedInv(View(), id);
      deleted, dirty := deleted + [id], Minus(dirty, [id]);
    }

    /** Write the versions of everything new, dirty and deleted, and commit; a key written
        twice is an integrity error, which rolls everything back. */
    method Flush(at: int) returns (ok: bool)
      requires Valid() && clock < at
      modifies this
      ensures Valid()
      ensures ok <==> OneReason(old(View()))
      ensures ok ==> View() == Fresh(AfterTable(old(View())), Kept(old(colls), old(deleted)))
      ensures ok ==> RowsAdded(old(View()), old(history), history, at)
      ensures ok ==> Settled(View())
      ensures ok ==> clock == at && snapshots == old(snapshots) + [(at, table)]
      ensures !ok ==> View() == Fresh(old(table), Undone(old(colls), old(table)))
      ensures !ok ==> history == old(history) && snapshots == old(snapshots) && clock == old(clock)
    {
      var added := Versions(at);
      ok := added.Some?;
      if ok {
        Commit(at, added.get);
      } else {
        UndoneInv(View());
        Rollback();
      }
    }

    /** The history with the rows of a flush, if no key is taken. */
    method Versions(at: int) returns (added: Option<History<V>>)
      requires Valid() && clock < at
      ensures added.Some? <==> OneReason(View())
      ensures added.Some? ==> RowsAdded(View(), history, added.get, at)
      ensures added.Some? ==> SessionInv(Fresh(AfterTable(View()), Kept(colls, deleted)))
      ensures added.Some? ==> Settled(Fresh(AfterTable(View()), Kept(colls, deleted)))
      ensures added.Some? ==>
                HistoryInv(added.get, at, AfterTable(View()), snapshots + [(at, AfterTable(View()))])
    {
      var rows := AllRows();
      FlushInv(View(), history, clock, snapshots, at);
      added := AddAll(history, rows, at);
      if added.Some? {
        KeptInv(View());
        KeptSettled(View());
        FlushAdds(View(), history, clock, at);
      }
    }

    method Commit(at: int, added: History<V>)
      modifies this
      ensures View() == Fresh(AfterTable(old(View())), Kept(old(colls), old(deleted)))
      ensures history == added && clock == at && snapshots == old(snapshots) + [(at, table)]
    {
      table := AfterTable(Session(table, current, colls, touched, created, dirty, deleted));
      colls := Kept(colls, deleted);
      current, history := table, added;
      touched, created, dirty, deleted := {}, [], [], [];
      clock, snapshots := at, snapshots + [(at, table)];
    }

    method Rollback()
      modifies this`current, this`colls, this`touched, this`created, this`dirty, this`deleted
      ensures View() == Fresh(old(table), Undone(old(colls), old(table)))
    {
      current, colls := table, Undone(colls, table);
      touched, created, dirty, deleted := {}, [], [], [];
    }

    method AllRows() returns (rows: seq<Row<V>>)
      requires SessionInv(View())
      ensures Ready(View(), Work(View())) && rows == FlushRows(View(), Work(View()))
    {
      var s := Session(table, current, colls, touched, created, dirty, deleted);
      SessionReady(s);
      FlushRowsAppend(s, Tag(created, New) + Tag(dirty, Dirty), Tag(deleted, Deleted));
      FlushRowsAppend(s, Tag(created, New), Tag(dirty, Dirty));
      var a := VersionAll(s, created, New);
      var b := VersionAll(s, dirty, Dirty);
      var c := VersionAll(s, deleted, Deleted);
      rows := a + b + c;
    }
  }
}
