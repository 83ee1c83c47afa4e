/** The edit history written after every flush: what is recorded, and what it recovers. */
module EditHistory {
  import opened Wrappers
  import opened Sequences

  type Id = nat

  /** One history row, keyed by object and timestamp; `cols` are all columns of the object. */
  datatype Version<V> = Version(cols: V, deletion: bool)
  type History<V> = map<(Id, int), Version<V>>
  datatype Row<V> = Row(id: Id, cols: V, deletion: bool)

  /** A one-to-many collection of editable objects: as it was loaded, and as it is now. */
  datatype Coll = Coll(before: seq<Id>, now: seq<Id>)

  /** The session at a flush. `table` holds the committed columns, `current` those in memory;
      `touched` are the objects with a change in some other relation. */
  datatype Session<V> = Session(
    table: map<Id, V>, current: map<Id, V>, colls: map<Id, seq<Coll>>, touched: set<Id>,
    created: seq<Id>, dirty: seq<Id>, deleted: seq<Id>)

  datatype Kind = New | Dirty | Deleted

  // ---------------------------------------------------------------- one version

  function Members(ids: seq<Id>): set<Id> {
    set x | x in ids
  }

  /** What is in `ids` and not in `gone`. */
  function Minus(ids: seq<Id>, gone: seq<Id>): (r: seq<Id>)
    ensures forall x :: x in r <==> x in ids && x !in gone
  {
    if ids == [] then []
    else (if ids[0] in gone then [] else [ids[0]]) + Minus(ids[1..], gone)
  }

  predicate Changed(c: Coll) {
    Members(c.before) != Members(c.now)
  }

  /** Members that were there and still are, in the order of the collection. */
  function Unchanged(now: seq<Id>, before: seq<Id>): (r: seq<Id>)
    ensures forall x :: x in r <==> x in now && x in before
  {
    if now == [] then []
    else (if now[0] in before then [now[0]] else []) + Unchanged(now[1..], before)
  }

  predicate AnyChanged(cs: seq<Coll>) {
    exists i :: 0 <= i < |cs| && Changed(cs[i])
  }

  function CollsOf<V>(s: Session<V>, id: Id): seq<Coll> {
    if id in s.colls then s.colls[id] else []
  }

  /** Whether a new row is due: new objects, changed columns, or a changed relation. */
  predicate IsChanged<V(==)>(s: Session<V>, id: Id, kind: Kind) {
    || kind.New?
    || (id in s.table) != (id in s.current)
    || (id in s.table && id in s.current && s.table[id] != s.current[id])
    || AnyChanged(CollsOf(s, id))
    || id in s.touched
  }

  /** The unchanged members of every changed collection. */
  function Pulled(cs: seq<Coll>): seq<Id> {
    if cs == [] then []
    else (if Changed(cs[0]) then Unchanged(cs[0].now, cs[0].before) else []) + Pulled(cs[1..])
  }

  lemma PulledIn(cs: seq<Coll>, x: Id)
    ensures x in Pulled(cs) <==>
            exists i :: 0 <= i < |cs| && Changed(cs[i]) && x in cs[i].now && x in cs[i].before
  {
  }

  // ---------------------------------------------------------------- a well-formed session

  ghost predicate DistinctIds(ids: seq<Id>) {
    forall i, j :: 0 <= i < j < |ids| ==> ids[i] != ids[j]
  }

  function Work<V>(s: Session<V>): seq<(Id, Kind)> {
    Tag(s.created, New) + Tag(s.dirty, Dirty) + Tag(s.deleted, Deleted)
  }

  function Tag(ids: seq<Id>, kind: Kind): (r: seq<(Id, Kind)>)
    ensures |r| == |ids| && forall i :: 0 <= i < |r| ==> r[i] == (ids[i], kind)
  {
    if ids == [] then [] else [(ids[0], kind)] + Tag(ids[1..], kind)
  }

  /** What the session guarantees at `after_flush`: nothing changed goes unlisted. */
  ghost predicate SessionInv<V>(s: Session<V>) {
    && DistinctIds(s.created + s.dirty + s.deleted)
    && (forall x :: x in s.created ==> x !in s.table)
    && (forall x :: x in s.dirty || x in s.deleted ==> x in s.table)
    && (forall x :: x in s.current <==> x in s.table || x in s.created)
    && (forall x :: x in s.table && x !in s.dirty && x !in s.deleted ==> s.current[x] == s.table[x])
    && (forall x :: x in s.colls ==> x in s.current)
    && (forall x, i, y :: x in s.colls && 0 <= i < |s.colls[x]| && y in s.colls[x][i].now
          ==> y in s.current)
    && (forall x, i, y :: x in s.colls && 0 <= i < |s.colls[x]| && y in s.colls[x][i].before
          ==> y in s.table)
  }

  // ---------------------------------------------------------------- the rows of one flush

  predicate Due<V(==)>(s: Session<V>, w: (Id, Kind)) {
    IsChanged(s, w.0, w.1) || w.1.Deleted?
  }

  function RowsOf<V>(s: Session<V>, ids: seq<Id>): (r: seq<Row<V>>)
    requires forall x :: x in ids ==> x in s.current
    ensures |r| == |ids| && forall i :: 0 <= i < |r| ==> r[i] == Row(ids[i], s.current[ids[i]], false)
  {
    if ids == [] then [] else [Row(ids[0], s.current[ids[0]], false)] + RowsOf(s, ids[1..])
  }

  ghost predicate Ready<V>(s: Session<V>, work: seq<(Id, Kind)>) {
    && (forall i :: 0 <= i < |work| ==> work[i].0 in s.current)
    && (forall x, y :: x in s.current && y in Pulled(CollsOf(s, x)) ==> y in s.current)
  }

  /** `create_version`: the object's own row, then one for each unchanged member pulled in. */
  function RowsFor<V(==)>(s: Session<V>, w: (Id, Kind)): seq<Row<V>>
    requires Ready(s, [w])
  {
    assert [w][0] == w;
    if !Due(s, w) then []
    else [Row(w.0, s.current[w.0], w.1.Deleted?)] + RowsOf(s, Pulled(CollsOf(s, w.0)))
  }

  function FlushRows<V(==)>(s: Session<V>, work: seq<(Id, Kind)>): seq<Row<V>>
    requires Ready(s, work)
  {
    if work == [] then [] else RowsFor(s, work[0]) + FlushRows(s, work[1..])
  }

  /** Adding rows at one timestamp; a key that is taken is an integrity error. */
  function AddAll<V>(h: History<V>, rows: seq<Row<V>>, at: int): Option<History<V>>
    decreases |rows|
  {
    if rows == [] then Some(h)
    else if (rows[0].id, at) in h then None
    else AddAll(h[(rows[0].id, at) := Version(rows[0].cols, rows[0].deletion)], rows[1..], at)
  }

  lemma TaggedAt(a: seq<Id>, b: seq<Id>, c: seq<Id>, i: nat)
    requires i < |a + b + c|
    ensures (Tag(a, New) + Tag(b, Dirty) + Tag(c, Deleted))[i].0 == (a + b + c)[i]
  {
  }

  lemma WorkListed<V>(s: Session<V>, i: nat)
    requires i < |Work(s)|
    ensures Work(s)[i].0 in s.created || Work(s)[i].0 in s.dirty || Work(s)[i].0 in s.deleted
  {
    var ids := s.created + s.dirty + s.deleted;
    assert |Work(s)| == |ids|;
    TaggedAt(s.created, s.dirty, s.deleted, i);
    assert ids[i] in ids;
  }

  lemma SessionReady<V>(s: Session<V>)
    requires SessionInv(s)
    ensures Ready(s, Work(s))
  {
    forall i | 0 <= i < |Work(s)|
      ensures Work(s)[i].0 in s.current
    {
      WorkListed(s, i);
    }
    forall x, y | x in s.current && y in Pulled(CollsOf(s, x))
      ensures y in s.current
    {
      PulledIn(CollsOf(s, x), y);
    }
  }

  // ---------------------------------------------------------------- the loops

  method CreateVersion<V(==)>(s: Session<V>, id: Id, kind: Kind) returns (rows: seq<Row<V>>)
    requires Ready(s, [(id, kind)])
    ensures rows == RowsFor(s, (id, kind))
  {
    assert [(id, kind)][0] == (id, kind);
    if !IsChanged(s, id, kind) && !kind.Deleted? {
      return [];
    }
    rows := [Row(id, s.current[id], kind.Deleted?)];
    var colls := CollsOf(s, id);
    while colls != []
      invariant forall x :: x in Pulled(colls) ==> x in s.current
      invariant rows + RowsOf(s, Pulled(colls)) == RowsFor(s, (id, kind))
      decreases |colls|
    {
      PulledStep(s, rows, colls);
      if Changed(colls[0]) {
        var kept := Unchanged(colls[0].now, colls[0].before);
        rows := rows + RowsOf(s, kept);
      }
      colls := colls[1..];
    }
    assert rows + [] == rows;
  }

  lemma PulledStep<V>(s: Session<V>, rows: seq<Row<V>>, colls: seq<Coll>)
    requires colls != [] && forall x :: x in Pulled(colls) ==> x in s.current
    ensures var kept := if Changed(colls[0]) then Unchanged(colls[0].now, colls[0].before) else [];
            && (forall x :: x in kept ==> x in s.current)
            && (forall x :: x in Pulled(colls[1..]) ==> x in s.current)
            && rows + RowsOf(s, kept) + RowsOf(s, Pulled(colls[1..])) == rows + RowsOf(s, Pulled(colls))
    ensures !Changed(colls[0]) ==> Pulled(colls) == Pulled(colls[1..])
  {
    var kept := if Changed(colls[0]) then Unchanged(colls[0].now, colls[0].before) else [];
    assert Pulled(colls) == kept + Pulled(colls[1..]);
    RowsAppend(s, kept, Pulled(colls[1..]));
    AppendAssociative(rows, RowsOf(s, kept), RowsOf(s, Pulled(colls[1..])));
  }

  lemma RowsAppend<V>(s: Session<V>, a: seq<Id>, b: seq<Id>)
    requires forall x :: x in a + b ==> x in s.current
    ensures (forall x :: x in a ==> x in s.current) && (forall x :: x in b ==> x in s.current)
    ensures RowsOf(s, a + b) == RowsOf(s, a) + RowsOf(s, b)
  {
    assert forall x :: x in a ==> x in a + b;
    assert forall x :: x in b ==> x in a + b;
  }
}
