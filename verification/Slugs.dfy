/** The prefix that a removed item's slug carries, and what it guarantees. */
module Slugs {
  import opened Wrappers

  type Id = nat

  // ---------------------------------------------------------------- the prefix

  predicate PairAt(s: string, i: int) {
    0 <= i < |s| - 1 && s[i] == '_' && s[i + 1] == '_'
  }

  /** Where the first double underscore starts, if there is one. */
  function FindPair(s: string): (r: Option<nat>)
    ensures r.Some? ==> PairAt(s, r.get) && forall j :: 0 <= j < r.get ==> !PairAt(s, j)
    ensures r.None? ==> forall j :: !PairAt(s, j)
  {
    FindFrom(s, 0)
  }

  function FindFrom(s: string, i: nat): (r: Option<nat>)
    requires i <= |s| && forall j :: 0 <= j < i ==> !PairAt(s, j)
    ensures r.Some? ==> PairAt(s, r.get) && forall j :: 0 <= j < r.get ==> !PairAt(s, j)
    ensures r.None? ==> forall j :: !PairAt(s, j)
    decreases |s| - i
  {
    if i >= |s| - 1 then None
    else if s[i] == '_' && s[i + 1] == '_' then Some(i)
    else FindFrom(s, i + 1)
  }

  predicate Prefixed(s: string) {
    FindPair(s).Some?
  }

  const MARK := "-REM__"

  /** `hash` is the digest of the item's creation time. */
  function AddPrefix(s: string, hash: string): string {
    if Prefixed(s) then s else hash + MARK + s
  }

  function RemovePrefix(s: string): string {
    match FindPair(s)
    case Some(i) => s[i + 2..]
    case None => s
  }

  /** Six hex digits; that none is an underscore is all that matters. */
  predicate IsHash(hash: string) {
    |hash| == 6 && '_' !in hash
  }

  /** What the slug type lets through, lower-case letters, digits and hyphens, has no underscore. */
  predicate IsSlug(s: string) {
    '_' !in s
  }

  lemma SlugPlain(s: string)
    requires IsSlug(s)
    ensures !Prefixed(s)
  {
  }

  lemma PrefixFound(s: string, hash: string)
    requires IsHash(hash)
    ensures FindPair(hash + MARK + s) == Some(10)
  {
    var t := hash + MARK + s;
    assert forall i :: 0 <= i < 6 ==> t[i] == hash[i];
    assert t[6] == '-' && t[7] == 'R' && t[8] == 'E' && t[9] == 'M' && t[10] == '_' && t[11] == '_';
    assert PairAt(t, 10);
  }

  /** Stripping gives back exactly the slugs that carried no prefix to begin with. */
  lemma StripExactly(s: string, hash: string)
    requires IsHash(hash)
    ensures RemovePrefix(AddPrefix(s, hash)) == s <==> !Prefixed(s)
  {
    if !Prefixed(s) {
      PrefixFound(s, hash);
      assert (hash + MARK + s)[12..] == s;
    }
  }

  /** However often it is added, and whenever, there is one prefix, the first one. */
  lemma OnePrefix(s: string, hash: string, other: string)
    requires IsHash(hash)
    ensures Prefixed(AddPrefix(s, hash)) && AddPrefix(AddPrefix(s, hash), other) == AddPrefix(s, hash)
  {
    if !Prefixed(s) {
      PrefixFound(s, hash);
    }
  }

  /** Marked slugs tell which slug and which creation time they come from. */
  lemma PrefixInjective(s: string, hash: string, t: string, other: string)
    requires IsHash(hash) && IsHash(other) && !Prefixed(s) && !Prefixed(t)
    requires AddPrefix(s, hash) == AddPrefix(t, other)
    ensures s == t && hash == other
  {
    StripExactly(s, hash);
    StripExactly(t, other);
    assert hash == (hash + MARK + s)[..6];
    assert other == (other + MARK + t)[..6];
  }

  // ---------------------------------------------------------------- a table of datasets

  datatype Item = Item(slug: string, removed: bool, hash: string)
  type Table = map<Id, Item>

  /** A removal, by whatever route, sets the flag again even if it is set already. A patch
      assigns the fields it is given, the flag before the slug. */
  datatype Step =
    | Create(i: Id, slug: string, hash: string, gone: bool, flagLast: bool)
    | MarkRemoved(i: Id)
    | Patch(i: Id, rename: Option<string>, removed: Option<bool>)

  /** The listener on the removal flag. */
  function Toggled(item: Item, removed: bool): Item {
    Item(if removed then AddPrefix(item.slug, item.hash) else RemovePrefix(item.slug), removed, item.hash)
  }

  function Patched(item: Item, slug: Option<string>, removed: Option<bool>): Item {
    var first := if removed.Some? then Toggled(item, removed.get) else item;
    if slug.Some? then first.(slug := slug.get) else first
  }

  /** A new item. The request type carries the flag too; which of the two is assigned last decides
      whether the listener's change of the slug lasts. */
  function Made(slug: string, hash: string, gone: bool, flagLast: bool): Item {
    if !gone then Item(slug, false, hash)
    else if flagLast then Toggled(Item(slug, false, hash), true)
    else Item(slug, true, hash)
  }

  predicate Taken(t: Table, slug: string, i: Id) {
    exists j :: j in t && j != i && t[j].slug == slug
  }

  /** A write that would give two rows one slug fails, and leaves the table as it was. */
  function Write(t: Table, i: Id, item: Item): Table {
    if Taken(t, item.slug, i) then t else t[i := item]
  }

  predicate Accepted(t: Table, step: Step) {
    match step
    case Create(i, _, _, _, _) => i !in t
    case MarkRemoved(i) => i in t
    case Patch(i, _, _) => i in t && !t[i].removed
  }

  /** What the request types let through. */
  predicate WellTyped(step: Step) {
    match step
    case Create(_, slug, hash, _, _) => IsSlug(slug) && IsHash(hash)
    case MarkRemoved(_) => true
    case Patch(_, slug, _) => slug.Some? ==> IsSlug(slug.get)
  }

  /** Only an item that is not removed is visible to anyone who could patch it. */
  function Next(t: Table, step: Step): Table {
    if !Accepted(t, step) then t
    else
      match step
      case Create(i, slug, hash, gone, flagLast) => Write(t, i, Made(slug, hash, gone, flagLast))
      case MarkRemoved(i) => Write(t, i, Toggled(t[i], true))
      case Patch(i, slug, removed) => Write(t, i, Patched(t[i], slug, removed))
  }

  // ---------------------------------------------------------------- what the table keeps

  ghost predicate Distinct(t: Table) {
    forall i, j :: i in t && j in t && i != j ==> t[i].slug != t[j].slug
  }

  /** A removed item's slug is marked once, over a plain slug; another item's is plain. */
  ghost predicate ItemInv(item: Item) {
    && IsHash(item.hash)
    && if item.removed
       then IsSlug(RemovePrefix(item.slug)) && item.slug == item.hash + MARK + RemovePrefix(item.slug)
       else IsSlug(item.slug)
  }

  ghost predicate Marked(t: Table) {
    forall i :: i in t ==> ItemInv(t[i])
  }

  /** The requests that break it: removing and renaming in the same patch, and creating what is
      removed from the start if the slug is assigned after the flag. */
  predicate Breaks(t: Table, step: Step) {
    Accepted(t, step) &&
    match step
    case Create(i, slug, _, gone, flagLast) => gone && !flagLast && !Taken(t, slug, i)
    case MarkRemoved(_) => false
    case Patch(i, rename, removed) => removed == Some(true) && rename.Some? && !Taken(t, rename.get, i)
  }

  lemma ToggledInv(item: Item, removed: bool)
    requires ItemInv(item)
    ensures ItemInv(Toggled(item, removed))
    ensures item.removed && removed ==> Toggled(item, removed) == item
    ensures !item.removed && removed ==> RemovePrefix(Toggled(item, removed).slug) == item.slug
  {
    if item.removed {
      PrefixFound(RemovePrefix(item.slug), item.hash);
    } else {
      SlugPlain(item.slug);
      StripExactly(item.slug, item.hash);
      PrefixFound(item.slug, item.hash);
    }
    if !removed {
      SlugPlain(RemovePrefix(item.slug));
    }
  }

  lemma PatchedExactly(item: Item, slug: Option<string>, removed: Option<bool>)
    requires ItemInv(item) && !item.removed && (slug.Some? ==> IsSlug(slug.get))
    ensures ItemInv(Patched(item, slug, removed)) <==> !(removed == Some(true) && slug.Some?)
  {
    if removed.Some? {
      ToggledInv(item, removed.get);
    }
    if slug.Some? {
      SlugPlain(slug.get);
      if removed == Some(true) {
        PrefixFound(RemovePrefix(slug.get), item.hash);
      }
    }
  }

  lemma MadeExactly(slug: string, hash: string, gone: bool, flagLast: bool)
    requires IsSlug(slug) && IsHash(hash)
    ensures ItemInv(Made(slug, hash, gone, flagLast)) <==> !gone || flagLast
    ensures Made(slug, hash, gone, flagLast) ==
            Item(if gone && flagLast then hash + MARK + slug else slug, gone, hash)
  {
    if gone && flagLast {
      ToggledInv(Item(slug, false, hash), true);
    } else if gone {
      SlugPlain(slug);
      PrefixFound(slug, hash);
      if ItemInv(Item(slug, true, hash)) {
        PrefixFound(RemovePrefix(slug), hash);
      }
    }
  }

  lemma WriteExactly(t: Table, i: Id, item: Item)
    requires Marked(t) && Distinct(t)
    ensures Distinct(Write(t, i, item))
    ensures Marked(Write(t, i, item)) <==> Taken(t, item.slug, i) || ItemInv(item)
  {
    if !Taken(t, item.slug, i) {
      var r := Write(t, i, item);
      assert r[i] == item && forall j :: j in t && j != i ==> r[j] == t[j];
    }
  }

  lemma StepExactly(t: Table, step: Step)
    requires Marked(t) && Distinct(t) && WellTyped(step)
    ensures Distinct(Next(t, step))
    ensures Marked(Next(t, step)) <==> !Breaks(t, step)
  {
    if Accepted(t, step) {
      match step
      case Create(i, slug, hash, gone, flagLast) =>
        MadeExactly(slug, hash, gone, flagLast);
        WriteExactly(t, i, Made(slug, hash, gone, flagLast));
      case MarkRemoved(i) =>
        ToggledInv(t[i], true);
        WriteExactly(t, i, Toggled(t[i], true));
      case Patch(i, slug, removed) =>
        PatchedExactly(t[i], slug, removed);
        WriteExactly(t, i, Patched(t[i], slug, removed));
    }
  }

  /** What a request makes of the item it names, if no other has the slug it would get. */
  function Effect(t: Table, step: Step): Option<Item> {
    match step
    case Create(i, slug, hash, gone, flagLast) =>
      if i in t then None
      else if gone && flagLast then Some(Item(hash + MARK + slug, true, hash))
      else Some(Item(slug, gone, hash))
    case MarkRemoved(i) =>
      if i !in t then None
      else if t[i].removed then Some(t[i])
      else Some(Item(t[i].hash + MARK + t[i].slug, true, t[i].hash))
    case Patch(i, rename, removed) =>
      if i !in t || t[i].removed then None
      else if rename.Some? then Some(Item(rename.get, removed == Some(true), t[i].hash))
      else if removed == Some(true) then Some(Item(t[i].hash + MARK + t[i].slug, true, t[i].hash))
      else Some(t[i])
  }

  lemma EffectExactly(t: Table, step: Step, j: Id)
    requires Marked(t) && Distinct(t) && WellTyped(step)
    ensures var effect, after := Effect(t, step), Next(t, step);
            if effect.Some? && j == step.i && forall k :: k in t && t[k].slug == effect.get.slug ==> k == j
            then j in after && after[j] == effect.get
            else (j in after <==> j in t) && (j in t ==> after[j] == t[j])
  {
    match step
    case Create(i, slug, hash, gone, flagLast) => MadeExactly(slug, hash, gone, flagLast);
    case MarkRemoved(i) =>
      if i in t {
        ToggledExactly(t[i], true);
      }
    case Patch(i, rename, removed) =>
      if i in t && !t[i].removed && removed.Some? {
        ToggledExactly(t[i], removed.get);
      }
  }

  lemma ToggledExactly(item: Item, removed: bool)
    requires ItemInv(item)
    ensures removed && item.removed ==> Toggled(item, removed) == item
    ensures removed && !item.removed ==> Toggled(item, removed) == Item(item.hash + MARK + item.slug, true, item.hash)
    ensures !removed && !item.removed ==> Toggled(item, removed) == item
  {
    ToggledInv(item, removed);
    if !item.removed {
      SlugPlain(item.slug);
    }
  }

  /** One such patch: the dataset ends up removed under a plain slug. */
  lemma RenamedRemoval()
    ensures var item := Item("old", false, "a1b2c3");
            && ItemInv(item)
            && Patched(item, Some("new"), Some(true)) == Item("new", true, "a1b2c3")
            && !ItemInv(Item("new", true, "a1b2c3"))
  {
    PatchedExactly(Item("old", false, "a1b2c3"), Some("new"), Some(true));
  }

  // ---------------------------------------------------------------- whole runs

  ghost predicate MarkedThroughout(t: Table, steps: seq<Step>)
    decreases |steps|
  {
    Marked(t) && (steps == [] || MarkedThroughout(Next(t, steps[0]), steps[1..]))
  }

  predicate NeverBreaks(t: Table, steps: seq<Step>)
    decreases |steps|
  {
    steps == [] || (!Breaks(t, steps[0]) && NeverBreaks(Next(t, steps[0]), steps[1..]))
  }

  function Run(t: Table, steps: seq<Step>): Table
    decreases |steps|
  {
    if steps == [] then t else Run(Next(t, steps[0]), steps[1..])
  }

  /** Over any run of well-typed requests, the mark and the flag agree at every moment exactly
      when no request that `Breaks` names is accepted. */
  lemma {:induction false} MarkedExactly(t: Table, steps: seq<Step>)
    requires Marked(t) && Distinct(t) && forall k :: 0 <= k < |steps| ==> WellTyped(steps[k])
    ensures MarkedThroughout(t, steps) <==> NeverBreaks(t, steps)
    decreases |steps|
  {
    if steps != [] {
      StepExactly(t, steps[0]);
      if Marked(Next(t, steps[0])) {
        MarkedExactly(Next(t, steps[0]), steps[1..]);
      } else {
        assert !MarkedThroughout(Next(t, steps[0]), steps[1..]);
      }
    }
  }

  /** A removed item stays removed whatever follows, and while the marks are kept its slug never
      changes again: the original one can be read off it for good. */
  lemma {:induction false} RemovedForGood(t: Table, steps: seq<Step>, i: Id)
    requires Marked(t) && Distinct(t) && forall k :: 0 <= k < |steps| ==> WellTyped(steps[k])
    requires NeverBreaks(t, steps) && i in t && t[i].removed
    ensures i in Run(t, steps) && Run(t, steps)[i] == t[i]
    decreases |steps|
  {
    if steps != [] {
      StepExactly(t, steps[0]);
      ToggledInv(t[i], true);
      assert Next(t, steps[0])[i] == t[i];
      RemovedForGood(Next(t, steps[0]), steps[1..], i);
    }
  }

  /** A slug given up by removal is free again: no removed item has the slug of a live one, or any
      slug that a request can give to an item. A path can still name the marked one. */
  lemma NeverCollide(t: Table, i: Id, slug: string)
    requires Marked(t) && i in t && t[i].removed && IsSlug(slug)
    ensures t[i].slug != slug
  {
  }

  // ---------------------------------------------------------------- the object

  class Dataset {
    var slug: string
    var isRemoved: bool
    const hash: string

    constructor (slug: string, hash: string)
      ensures Columns() == Item(slug, false, hash)
    {
      this.slug, this.isRemoved, this.hash := slug, false, hash;
    }

    function Columns(): Item
      reads this
    {
      Item(slug, isRemoved, hash)
    }

    /** The listener renames, then the flag is set. */
    method SetRemoved(value: bool)
      modifies this
      ensures Columns() == Toggled(old(Columns()), value)
      ensures IsHash(hash) && value ==> Prefixed(slug)
    {
      if value {
        ghost var was := slug;
        slug := AddPrefix(slug, hash);
        if IsHash(hash) {
          OnePrefix(was, hash, hash);
        }
      } else {
        slug := RemovePrefix(slug);
      }
      isRemoved := value;
    }

    method Update(newSlug: Option<string>, removed: Option<bool>)
      modifies this
      ensures Columns() == Patched(old(Columns()), newSlug, removed)
    {
      if removed.Some? {
        SetRemoved(removed.get);
      }
      if newSlug.Some? {
        slug := newSlug.get;
      }
    }
  }
}
