/** Pages with a shorter first one. */
module Pagination {
  import opened Wrappers
  import opened Numbers

  datatype Params = Params(page: nat, size: Option<nat>, firstSize: nat, otherSize: nat)
  datatype Raw = Raw(limit: nat, offset: Option<nat>)

  predicate Allowed(p: Params) {
    p.page >= 1 && p.firstSize >= 1 && p.otherSize >= 1 && (p.size.Some? ==> p.size.get >= 1)
  }

  function ToRaw(p: Params): Raw
    requires Allowed(p)
  {
    if p.size.Some? then Raw(p.size.get, Some(p.size.get * (p.page - 1)))
    else if p.page == 1 then Raw(p.firstSize, None)
    else Raw(p.otherSize, Some(p.firstSize + (p.page - 2) * p.otherSize))
  }

  /** What a query with this limit and offset returns. */
  function Select<T>(items: seq<T>, raw: Raw): seq<T> {
    var from := Least(if raw.offset.Some? then raw.offset.get else 0, |items|);
    items[from..Least(from + raw.limit, |items|)]
  }

  function PageOf<T>(items: seq<T>, p: Params, page: nat): seq<T>
    requires Allowed(p) && page >= 1
  {
    Select(items, ToRaw(p.(page := page)))
  }

  /** Where a page starts and ends in the whole list. */
  function Start(p: Params, page: nat): nat
    requires Allowed(p) && page >= 1
  {
    var raw := ToRaw(p.(page := page));
    if raw.offset.Some? then raw.offset.get else 0
  }

  function End(p: Params, page: nat): nat
    requires Allowed(p) && page >= 1
  {
    Start(p, page) + ToRaw(p.(page := page)).limit
  }

  /** Each page starts where the one before it ends. */
  lemma NextStart(p: Params, page: nat)
    requires Allowed(p) && page >= 1
    ensures Start(p, page + 1) == End(p, page) && End(p, page + 1) > End(p, page)
    ensures Start(p, 1) == 0
  {
    if p.size.Some? {
      assert p.size.get * page == p.size.get * (page - 1) + p.size.get;
    } else if page >= 2 {
      assert (page - 1) * p.otherSize == (page - 2) * p.otherSize + p.otherSize;
    }
  }

  function Joined<T>(items: seq<T>, p: Params, pages: nat): seq<T>
    requires Allowed(p)
  {
    if pages == 0 then [] else Joined(items, p, pages - 1) + PageOf(items, p, pages)
  }

  lemma PageSlice<T>(items: seq<T>, p: Params, page: nat)
    requires Allowed(p) && page >= 1
    ensures Least(Start(p, page), |items|) <= Least(End(p, page), |items|)
    ensures PageOf(items, p, page) == items[Least(Start(p, page), |items|)..Least(End(p, page), |items|)]
  {
  }

  lemma SlicesJoin<T>(items: seq<T>, a: nat, b: nat)
    requires a <= b <= |items|
    ensures items[..a] + items[a..b] == items[..b]
  {
  }

  /** Put together, the pages are the list, as far as they reach. */
  lemma {:induction false} PagesJoin<T>(items: seq<T>, p: Params, pages: nat)
    requires Allowed(p) && pages >= 1
    ensures Joined(items, p, pages) == items[..Least(End(p, pages), |items|)]
  {
    NextStart(p, pages);
    if pages > 1 {
      PagesJoin(items, p, pages - 1);
      NextStart(p, pages - 1);
      PageSlice(items, p, pages);
      SlicesJoin(items, Least(Start(p, pages), |items|), Least(End(p, pages), |items|));
    } else {
      PageSlice(items, p, 1);
      assert Joined(items, p, 0) == [];
    }
  }

  lemma {:induction false} EndsReach(p: Params, pages: nat)
    requires Allowed(p) && pages >= 1
    ensures End(p, pages) >= pages
  {
    if pages > 1 {
      EndsReach(p, pages - 1);
      NextStart(p, pages - 1);
    } else {
      NextStart(p, 1);
    }
  }

  lemma {:induction false} StartsAfter(p: Params, early: nat, late: nat)
    requires Allowed(p) && 1 <= early < late
    ensures End(p, early) <= Start(p, late)
  {
    NextStart(p, late - 1);
    if early + 1 < late {
      StartsAfter(p, early, late - 1);
      NextStart(p, late - 2);
    }
  }

  predicate On(p: Params, page: nat, i: nat)
    requires Allowed(p) && page >= 1
  {
    Start(p, page) <= i < End(p, page)
  }

  lemma {:induction false} FindPage(p: Params, pages: nat, i: nat) returns (page: nat)
    requires Allowed(p) && pages >= 1 && i < End(p, pages)
    ensures 1 <= page <= pages && On(p, page, i)
  {
    if pages == 1 {
      NextStart(p, 1);
      page := 1;
    } else if i < End(p, pages - 1) {
      page := FindPage(p, pages - 1, i);
    } else {
      NextStart(p, pages - 1);
      page := pages;
    }
  }

  /** Unless a size is asked for, the first page has the first size and the others the other size, as
      far as the list goes, one after the other. */
  lemma SizesExactly<T>(items: seq<T>, p: Params, page: nat)
    requires Allowed(p) && page >= 1
    ensures p.size.None? && page == 1 ==> PageOf(items, p, page) == items[..Least(p.firstSize, |items|)]
    ensures p.size.None? && page > 1 ==>
              var from := p.firstSize + (page - 2) * p.otherSize;
              && |PageOf(items, p, page)| == Least(p.otherSize, if from <= |items| then |items| - from else 0)
              && (from <= |items| ==> PageOf(items, p, page) <= items[from..])
    ensures p.size.Some? ==>
              var from := (page - 1) * p.size.get;
              && |PageOf(items, p, page)| == Least(p.size.get, if from <= |items| then |items| - from else 0)
              && (from <= |items| ==> PageOf(items, p, page) <= items[from..])
  {
    SelectExactly(items, ToRaw(p.(page := page)));
    if p.size.Some? {
      assert (page - 1) * p.size.get == p.size.get * (page - 1);
    }
  }

  lemma SelectExactly<T>(items: seq<T>, raw: Raw)
    ensures var from := if raw.offset.Some? then raw.offset.get else 0;
            && |Select(items, raw)| == Least(raw.limit, if from <= |items| then |items| - from else 0)
            && (from <= |items| ==> Select(items, raw) <= items[from..])
            && (from == 0 ==> Select(items, raw) == items[..Least(raw.limit, |items|)])
  {
    var from := if raw.offset.Some? then raw.offset.get else 0;
    if from <= |items| {
      var n := Least(from + raw.limit, |items|);
      assert items[from..n] == items[from..][..n - from];
    }
  }

  /** Every place in the list, however long, is on one page and on no other. */
  lemma OnePage(p: Params, i: nat)
    requires Allowed(p)
    ensures exists page: nat :: page >= 1 && On(p, page, i)
    ensures forall a: nat, b: nat :: a >= 1 && b >= 1 && On(p, a, i) && On(p, b, i) ==> a == b
  {
    EndsReach(p, i + 1);
    var page := FindPage(p, i + 1, i);
    assert page >= 1 && On(p, page, i);
    forall a: nat, b: nat | a >= 1 && b >= 1 && On(p, a, i) && On(p, b, i)
      ensures a == b
    {
      if a < b {
        StartsAfter(p, a, b);
      } else if b < a {
        StartsAfter(p, b, a);
      }
    }
  }

  /** Enough pages give the whole list. */
  lemma AllPages<T>(items: seq<T>, p: Params, pages: nat)
    requires Allowed(p) && pages >= 1 && End(p, pages) >= |items|
    ensures Joined(items, p, pages) == items
  {
    PagesJoin(items, p, pages);
    assert items[..|items|] == items;
  }
}
