/** The url list of a torrent file, kept equal to a query over its webseeds by listeners. */
module WebseedView {
  import opened Wrappers

  type Url = string

  datatype Status = InOriginal | PendingReview | Queued | InProgress | Validated | Failed

  /** A webseed's columns at one moment. The removal flag is a column that is never set. */
  datatype Seed = Seed(url: Url, status: Status, approved: bool, removed: bool)

  /** A torrent's webseeds and, when it exists, its file's url list (absent when empty). */
  datatype Torrent = Torrent(seeds: seq<Seed>, onDisk: bool, urls: Option<seq<Url>>)

  datatype Event =
    | Append(seed: Seed)
    | Remove(i: nat)
    | Replace(seeds: seq<Seed>)
    | SetStatus(i: nat, status: Status)
    | SetApproved(i: nat, approved: bool)
    | DeleteRow(i: nat)

  predicate Served(status: Status) {
    status == Validated || status == InOriginal
  }

  predicate Listed(s: Seed) {
    s.status in {Validated, InOriginal} && s.approved && !s.removed
  }

  // ---------------------------------------------------------------- one synchronisation

  function UrlsOf(seeds: seq<Seed>): (r: seq<Url>)
    ensures forall u :: u in r <==> exists i :: 0 <= i < |seeds| && Listed(seeds[i]) && seeds[i].url == u
  {
    if seeds == [] then []
    else
      var rest := UrlsOf(seeds[..|seeds| - 1]);
      var last := seeds[|seeds| - 1];
      if Listed(last) then rest + [last.url] else rest
  }

  function Without(urls: seq<Url>, drop: seq<Url>): (r: seq<Url>)
    ensures forall u :: u in r <==> u in urls && u !in drop
  {
    if urls == [] then []
    else
      var rest := Without(urls[..|urls| - 1], drop);
      if urls[|urls| - 1] in drop then rest else rest + [urls[|urls| - 1]]
  }

  ghost predicate NoRepeats(urls: seq<Url>) {
    forall i, j :: 0 <= i < j < |urls| ==> urls[i] != urls[j]
  }

  /** Every url once, where it is first seen. */
  function Once(urls: seq<Url>): (r: seq<Url>)
    ensures NoRepeats(r) && forall u :: u in r <==> u in urls
  {
    if urls == [] then []
    else
      var rest := Once(urls[..|urls| - 1]);
      if urls[|urls| - 1] in rest then rest else rest + [urls[|urls| - 1]]
  }

  function NonEmpty(urls: seq<Url>): Option<seq<Url>> {
    if urls == [] then None else Some(urls)
  }

  function Synced(t: Torrent, value: seq<Seed>, add: seq<Url>, drop: seq<Url>): Torrent {
    if !t.onDisk then t
    else t.(urls := NonEmpty(Once(Without(UrlsOf(value) + add, drop))))
  }

  // ---------------------------------------------------------------- events

  /** Webseeds are made without the removal flag. */
  predicate Possible(t: Torrent, e: Event) {
    match e
    case Append(s) => !s.removed
    case Remove(i) => i < |t.seeds|
    case Replace(seeds) => NoneRemoved(seeds)
    case SetStatus(i, _) => i < |t.seeds|
    case SetApproved(i, _) => i < |t.seeds|
    case DeleteRow(i) => i < |t.seeds|
  }

  predicate NoneRemoved(seeds: seq<Seed>) {
    forall i :: 0 <= i < |seeds| ==> !seeds[i].removed
  }

  /** The listener runs first, on the webseeds as they still are; then the change is made. Deleting
      the row goes past the collection, and so past its listeners. */
  function Next(t: Torrent, e: Event): Torrent
    requires Possible(t, e)
  {
    match e
    case Append(s) => Synced(t, t.seeds + [s], [], []).(seeds := t.seeds + [s])
    case Remove(i) =>
      var rest := t.seeds[..i] + t.seeds[i + 1..];
      Synced(t, rest, [], []).(seeds := rest)
    case Replace(seeds) => Synced(t, seeds, [], []).(seeds := seeds)
    case SetStatus(i, status) =>
      var s := t.seeds[i];
      var keep := Served(status) && s.approved;
      Synced(t, t.seeds, if keep then [s.url] else [], if keep then [] else [s.url])
        .(seeds := t.seeds[i := s.(status := status)])
    case SetApproved(i, approved) =>
      var s := t.seeds[i];
      var keep := approved && Served(s.status);
      Synced(t, t.seeds, if keep then [s.url] else [], if keep then [] else [s.url])
        .(seeds := t.seeds[i := s.(approved := approved)])
    case DeleteRow(i) => t.(seeds := t.seeds[..i] + t.seeds[i + 1..])
  }

  // ---------------------------------------------------------------- coherence

  ghost predicate Distinct(seeds: seq<Seed>) {
    forall i, j :: 0 <= i < j < |seeds| ==> seeds[i].url != seeds[j].url
  }

  ghost predicate IsListed(seeds: seq<Seed>, u: Url) {
    exists i :: 0 <= i < |seeds| && Listed(seeds[i]) && seeds[i].url == u
  }

  /** An existing file lists, without repeats, exactly the urls the query would find. */
  ghost predicate Coherent(t: Torrent) {
    t.onDisk ==>
      match t.urls
      case None => forall u :: !IsListed(t.seeds, u)
      case Some(urls) => urls != [] && NoRepeats(urls) && forall u :: u in urls <==> IsListed(t.seeds, u)
  }

  ghost predicate Sound(t: Torrent) {
    Distinct(t.seeds) && NoneRemoved(t.seeds)
  }

  /** Deleting the row of a listed webseed leaves it listed. */
  predicate Breaks(t: Torrent, e: Event) {
    e.DeleteRow? && e.i < |t.seeds| && Listed(t.seeds[e.i])
  }

  lemma SyncCoherent(t: Torrent, value: seq<Seed>)
    ensures Coherent(Synced(t, value, [], []).(seeds := value))
  {
    var all := Once(Without(UrlsOf(value), []));
    assert UrlsOf(value) + [] == UrlsOf(value);
    assert forall u :: u in all <==> IsListed(value, u);
    if t.onDisk && all == [] {
      forall u
        ensures !IsListed(value, u)
      {
        assert u !in all;
      }
    }
  }

  lemma {:induction false} UrlsAppend(a: seq<Seed>, b: seq<Seed>)
    ensures UrlsOf(a + b) == UrlsOf(a) + UrlsOf(b)
  {
    if b == [] {
      assert a + b == a && UrlsOf(a) + [] == UrlsOf(a);
    } else {
      var n := |b| - 1;
      UrlsAppend(a, b[..n]);
      assert (a + b)[..|a + b| - 1] == a + b[..n];
    }
  }

  lemma {:induction false} OnceDistinct(urls: seq<Url>)
    requires NoRepeats(urls)
    ensures Once(urls) == urls
  {
    if urls != [] {
      OnceDistinct(urls[..|urls| - 1]);
    }
  }

  lemma {:induction false} WithoutNothing(urls: seq<Url>)
    ensures Without(urls, []) == urls
  {
    if urls != [] {
      WithoutNothing(urls[..|urls| - 1]);
    }
  }

  lemma {:induction false} UrlsDistinct(seeds: seq<Seed>)
    requires Distinct(seeds)
    ensures NoRepeats(UrlsOf(seeds))
  {
    if seeds != [] {
      var n := |seeds| - 1;
      UrlsDistinct(seeds[..n]);
      forall u | u in UrlsOf(seeds[..n])
        ensures u != seeds[n].url
      {
        var i :| 0 <= i < n && Listed(seeds[..n][i]) && seeds[..n][i].url == u;
        assert seeds[i].url != seeds[n].url;
      }
      var urls := UrlsOf(seeds[..n]);
      assert UrlsOf(seeds) == if Listed(seeds[n]) then urls + [seeds[n].url] else urls;
      forall i, j | 0 <= i < j < |urls + [seeds[n].url]|
        ensures (urls + [seeds[n].url])[i] != (urls + [seeds[n].url])[j]
      {
        assert urls[i] in urls;
      }
    }
  }

  /** The urls of the listed webseeds, in their order: of no webseed none, and of more one by one. */
  ghost predicate InOrder(urls: seq<Url>, seeds: seq<Seed>) {
    if seeds == [] then urls == []
    else if !Listed(seeds[0]) then InOrder(urls, seeds[1..])
    else urls != [] && urls[0] == seeds[0].url && InOrder(urls[1..], seeds[1..])
  }

  lemma {:induction false} UrlsInOrder(seeds: seq<Seed>)
    ensures InOrder(UrlsOf(seeds), seeds)
  {
    if seeds != [] {
      UrlsInOrder(seeds[1..]);
      assert seeds == [seeds[0]] + seeds[1..];
      UrlsAppend([seeds[0]], seeds[1..]);
      assert [seeds[0]][..0] == [] && UrlsOf([]) == [];
      assert UrlsOf([seeds[0]]) == if Listed(seeds[0]) then [seeds[0].url] else [];
      var rest := UrlsOf(seeds[1..]);
      assert UrlsOf(seeds) == if Listed(seeds[0]) then [seeds[0].url] + rest else [] + rest;
      assert ([seeds[0].url] + rest)[1..] == rest && [] + rest == rest;
    }
  }

  /** Changing the collection writes the urls in the order of the webseeds; a file that is not there
      is never written, and none comes or goes. */
  lemma FileWritten(t: Torrent, e: Event)
    requires Possible(t, e) && Sound(t) && Distinct(Next(t, e).seeds)
    ensures Next(t, e).onDisk == t.onDisk && (!t.onDisk ==> Next(t, e).urls == t.urls)
    ensures t.onDisk && (e.Append? || e.Remove? || e.Replace?) ==>
              match Next(t, e).urls
              case None => InOrder([], Next(t, e).seeds)
              case Some(urls) => urls != [] && InOrder(urls, Next(t, e).seeds)
  {
    var seeds := Next(t, e).seeds;
    UrlsInOrder(seeds);
    UrlsDistinct(seeds);
    WithoutNothing(UrlsOf(seeds));
    OnceDistinct(UrlsOf(seeds));
    assert UrlsOf(seeds) + [] == UrlsOf(seeds);
  }

  /** Replacing one webseed by another with its url: listed is what was listed elsewhere, or it. */
  lemma ListedAfter(seeds: seq<Seed>, i: nat, s: Seed, u: Url)
    requires Distinct(seeds) && i < |seeds| && s.url == seeds[i].url
    ensures IsListed(seeds[i := s], u) <==>
            if u == s.url then Listed(s) else IsListed(seeds, u)
  {
    var more := seeds[i := s];
    assert more[i] == s;
    assert forall j :: 0 <= j < |seeds| && j != i ==> more[j] == seeds[j];
    if u == s.url {
      forall j | 0 <= j < |seeds| && more[j].url == u
        ensures j == i
      {
      }
    } else if IsListed(seeds, u) {
      var j :| 0 <= j < |seeds| && Listed(seeds[j]) && seeds[j].url == u;
      assert Listed(more[j]) && more[j].url == u;
    }
  }

  /** The listener of one column: the url is kept or dropped by what the column becomes. */
  lemma ColumnSet(t: Torrent, i: nat, s: Seed, keep: bool)
    requires Distinct(t.seeds) && i < |t.seeds| && s.url == t.seeds[i].url && t.onDisk
    requires !s.removed && (keep <==> Served(s.status) && s.approved)
    ensures Coherent(Synced(t, t.seeds, if keep then [s.url] else [], if keep then [] else [s.url])
                       .(seeds := t.seeds[i := s]))
  {
    var add, drop: seq<Url> := if keep then [s.url] else [], if keep then [] else [s.url];
    var all := Once(Without(UrlsOf(t.seeds) + add, drop));
    forall u
      ensures u in all <==> if u == s.url then keep else IsListed(t.seeds, u)
    {
      assert u in UrlsOf(t.seeds) <==> IsListed(t.seeds, u);
    }
    var seeds := t.seeds[i := s];
    forall u
      ensures IsListed(seeds, u) <==> if u == s.url then Listed(s) else IsListed(t.seeds, u)
    {
      ListedAfter(t.seeds, i, s, u);
    }
    assert (s.url in all) == keep;
    assert IsListed(seeds, s.url) == Listed(s);
    if all == [] {
      forall u
        ensures !IsListed(seeds, u)
      {
        assert u !in all;
      }
    }
  }

  lemma RowDeleted(seeds: seq<Seed>, i: nat, u: Url)
    requires Distinct(seeds) && i < |seeds|
    ensures IsListed(seeds[..i] + seeds[i + 1..], u) <==> IsListed(seeds, u) && u != seeds[i].url
  {
    var rest := seeds[..i] + seeds[i + 1..];
    assert forall j :: 0 <= j < |rest| ==> rest[j] == seeds[if j < i then j else j + 1];
    if IsListed(seeds, u) && u != seeds[i].url {
      var j :| 0 <= j < |seeds| && Listed(seeds[j]) && seeds[j].url == u;
      assert rest[if j < i then j else j - 1] == seeds[j];
    }
  }

  lemma DeletedExactly(t: Torrent, i: nat)
    requires Distinct(t.seeds) && i < |t.seeds| && t.onDisk && Coherent(t)
    ensures Coherent(Next(t, DeleteRow(i))) <==> !Listed(t.seeds[i])
  {
    forall u
      ensures IsListed(Next(t, DeleteRow(i)).seeds, u) <==> IsListed(t.seeds, u) && u != t.seeds[i].url
    {
      RowDeleted(t.seeds, i, u);
    }
    var url := t.seeds[i].url;
    assert IsListed(t.seeds, url) <==> Listed(t.seeds[i]) by {
      ListedAfter(t.seeds, i, t.seeds[i], url);
      assert t.seeds[i := t.seeds[i]] == t.seeds;
    }
  }

  /** Every event that has a listener puts even a wrong file right. */
  lemma Restored(t: Torrent, e: Event)
    requires Possible(t, e) && Sound(t) && !e.DeleteRow?
    ensures Coherent(Next(t, e))
  {
    if t.onDisk {
      match e
      case Append(s) => SyncCoherent(t, t.seeds + [s]);
      case Remove(i) => SyncCoherent(t, t.seeds[..i] + t.seeds[i + 1..]);
      case Replace(seeds) => SyncCoherent(t, seeds);
      case SetStatus(i, status) =>
        ColumnSet(t, i, t.seeds[i].(status := status), Served(status) && t.seeds[i].approved);
      case SetApproved(i, approved) =>
        ColumnSet(t, i, t.seeds[i].(approved := approved), approved && Served(t.seeds[i].status));
      case DeleteRow(_) =>
    }
  }

  /** From a coherent state, an event leads to a coherent one exactly when it does not delete the
      row of a listed webseed. */
  lemma StepExactly(t: Torrent, e: Event)
    requires Possible(t, e) && Sound(t) && Coherent(t) && t.onDisk
    ensures Coherent(Next(t, e)) <==> !Breaks(t, e)
  {
    if e.DeleteRow? {
      DeletedExactly(t, e.i);
    } else {
      Restored(t, e);
    }
  }

  /** One that does: the torrent's only webseed is deleted, and its file goes on listing it. */
  lemma DeletedListed()
    ensures var t := Torrent([Seed("u", Validated, true, false)], true, Some(["u"]));
            && Sound(t) && Coherent(t)
            && Next(t, DeleteRow(0)) == Torrent([], true, Some(["u"]))
            && !Coherent(Next(t, DeleteRow(0)))
  {
    var t := Torrent([Seed("u", Validated, true, false)], true, Some(["u"]));
    assert Listed(t.seeds[0]);
    DeletedExactly(t, 0);
  }

  // ---------------------------------------------------------------- whole runs

  /** Every event is possible and leaves the urls distinct, as the table's constraint has it. */
  ghost predicate Run(t: Torrent, events: seq<Event>)
    decreases |events|
  {
    && Sound(t)
    && (events == [] || (Possible(t, events[0]) && Run(Next(t, events[0]), events[1..])))
  }

  ghost predicate CoherentThroughout(t: Torrent, events: seq<Event>)
    requires Run(t, events)
    decreases |events|
  {
    Coherent(t) && (events == [] || CoherentThroughout(Next(t, events[0]), events[1..]))
  }

  ghost predicate NeverBreaks(t: Torrent, events: seq<Event>)
    requires Run(t, events)
    decreases |events|
  {
    events == [] || (!Breaks(t, events[0]) && NeverBreaks(Next(t, events[0]), events[1..]))
  }

  /** Starting coherent, the file lists what the query finds at every moment of a run exactly
      when no event of the run deletes the row of a listed webseed. */
  lemma {:induction false} CoherentExactly(t: Torrent, events: seq<Event>)
    requires Run(t, events) && Coherent(t) && t.onDisk
    ensures CoherentThroughout(t, events) <==> NeverBreaks(t, events)
    decreases |events|
  {
    if events != [] {
      var t2, rest := Next(t, events[0]), events[1..];
      StepExactly(t, events[0]);
      if Coherent(t2) {
        CoherentExactly(t2, rest);
      } else {
        assert !CoherentThroughout(t2, rest);
      }
    }
  }

  // ---------------------------------------------------------------- the objects

  class Webseed {
    const url: Url
    var status: Status
    var approved: bool
    const removed: bool := false

    constructor (url: Url, status: Status, approved: bool)
      ensures this.url == url && this.status == status && this.approved == approved
    {
      this.url, this.status, this.approved := url, status, approved;
    }

    function Columns(): Seed
      reads this
    {
      Seed(url, status, approved, removed)
    }
  }

  function AllColumns(webseeds: seq<Webseed>): (r: seq<Seed>)
    reads set w | w in webseeds
    ensures |r| == |webseeds| && forall i :: 0 <= i < |r| ==> r[i] == webseeds[i].Columns()
  {
    seq(|webseeds|, i requires 0 <= i < |webseeds| reads set w | w in webseeds => webseeds[i].Columns())
  }

  lemma ColumnsWithout(webseeds: seq<Webseed>, i: nat)
    requires i < |webseeds|
    ensures AllColumns(webseeds[..i] + webseeds[i + 1..]) ==
            AllColumns(webseeds)[..i] + AllColumns(webseeds)[i + 1..]
  {
  }

  ghost predicate DistinctObjects(webseeds: seq<Webseed>) {
    forall i, j :: 0 <= i < j < |webseeds| ==> webseeds[i] != webseeds[j]
  }

  method DropUrls(urls: seq<Url>, drop: seq<Url>) returns (r: seq<Url>)
    ensures r == Without(urls, drop)
  {
    r := [];
    for k := 0 to |urls|
      invariant r == Without(urls[..k], drop)
    {
      assert urls[..k + 1][..k] == urls[..k];
      if urls[k] !in drop {
        r := r + [urls[k]];
      }
    }
    assert urls[..|urls|] == urls;
  }

  method DropRepeats(urls: seq<Url>) returns (r: seq<Url>)
    ensures r == Once(urls)
  {
    r := [];
    for k := 0 to |urls|
      invariant r == Once(urls[..k])
    {
      assert urls[..k + 1][..k] == urls[..k];
      if urls[k] !in r {
        r := r + [urls[k]];
      }
    }
    assert urls[..|urls|] == urls;
  }

  class TorrentFile {
    var webseeds: seq<Webseed>
    var fileExists: bool
    var urlList: Option<seq<Url>>

    constructor (fileExists: bool)
      ensures webseeds == [] && this.fileExists == fileExists && urlList == None
      ensures Coherent(View())
    {
      this.webseeds, this.fileExists, this.urlList := [], fileExists, None;
    }

    ghost function View(): Torrent
      reads this, webseeds
    {
      Torrent(AllColumns(webseeds), fileExists, urlList)
    }

    method SyncWebseeds(value: seq<Webseed>, add: seq<Url>, drop: seq<Url>)
      modifies this`urlList
      ensures View() == Synced(old(View()), AllColumns(value), add, drop)
    {
      if !fileExists {
        return;
      }
      var toSet: seq<Url> := [];
      ghost var all := AllColumns(value);
      for k := 0 to |value|
        invariant toSet == UrlsOf(all[..k])
        invariant urlList == old(urlList)
      {
        assert all[..k + 1][..k] == all[..k] && all[k] == value[k].Columns();
        if Listed(value[k].Columns()) {
          toSet := toSet + [value[k].url];
        }
      }
      assert all[..|value|] == all;
      toSet := toSet + add;
      toSet := DropUrls(toSet, drop);
      toSet := DropRepeats(toSet);
      urlList := NonEmpty(toSet);
    }

    method AppendWebseed(w: Webseed)
      requires w !in webseeds
      modifies this`webseeds, this`urlList
      ensures webseeds == old(webseeds) + [w]
      ensures View() == Next(old(View()), Append(w.Columns()))
    {
      SyncWebseeds(webseeds + [w], [], []);
      webseeds := webseeds + [w];
      assert AllColumns(webseeds) == old(AllColumns(webseeds)) + [w.Columns()];
    }

    /** The one object is left out, whatever its url. */
    method Others(i: nat) returns (rest: seq<Webseed>)
      requires i < |webseeds| && DistinctObjects(webseeds)
      ensures rest == webseeds[..i] + webseeds[i + 1..]
    {
      rest := [];
      for k := 0 to |webseeds|
        invariant rest == if k <= i then webseeds[..k] else webseeds[..i] + webseeds[i + 1..k]
      {
        if webseeds[k] != webseeds[i] {
          rest := rest + [webseeds[k]];
        }
      }
    }

    method RemoveWebseed(i: nat)
      requires i < |webseeds| && DistinctObjects(webseeds)
      modifies this`webseeds, this`urlList
      ensures webseeds == old(webseeds[..i] + webseeds[i + 1..])
      ensures View() == Next(old(View()), Remove(i))
    {
      var rest := Others(i);
      ColumnsWithout(webseeds, i);
      SyncWebseeds(rest, [], []);
      webseeds := rest;
    }

    method ReplaceWebseeds(value: seq<Webseed>)
      modifies this`webseeds, this`urlList
      ensures webseeds == value
      ensures View() == Next(old(View()), Replace(old(AllColumns(value))))
    {
      SyncWebseeds(value, [], []);
      webseeds := value;
    }

    method SetWebseedStatus(w: Webseed, ghost i: nat, status: Status)
      requires i < |webseeds| && webseeds[i] == w && DistinctObjects(webseeds)
      modifies this`urlList, w`status
      ensures View() == Next(old(View()), SetStatus(i, status))
    {
      if Served(status) && w.approved {
        SyncWebseeds(webseeds, [w.url], []);
      } else {
        SyncWebseeds(webseeds, [], [w.url]);
      }
      w.status := status;
      assert AllColumns(webseeds) == old(AllColumns(webseeds))[i := w.Columns()];
    }

    method SetWebseedApproved(w: Webseed, ghost i: nat, approved: bool)
      requires i < |webseeds| && webseeds[i] == w && DistinctObjects(webseeds)
      modifies this`urlList, w`approved
      ensures View() == Next(old(View()), SetApproved(i, approved))
    {
      if approved && Served(w.status) {
        SyncWebseeds(webseeds, [w.url], []);
      } else {
        SyncWebseeds(webseeds, [], [w.url]);
      }
      w.approved := approved;
      assert AllColumns(webseeds) == old(AllColumns(webseeds))[i := w.Columns()];
    }

    /** The route deletes the row in the session: the collection loses it, no listener runs. */
    method DeleteWebseedRow(i: nat)
      requires i < |webseeds| && DistinctObjects(webseeds)
      modifies this`webseeds
      ensures webseeds == old(webseeds[..i] + webseeds[i + 1..])
      ensures View() == Next(old(View()), DeleteRow(i))
    {
      var rest := Others(i);
      ColumnsWithout(webseeds, i);
      webseeds := rest;
    }
  }
}
