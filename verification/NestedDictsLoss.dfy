/** Why only safe dictionaries come back: flattening an unsafe one loses depth for good. */
module NestedDictsLoss {
  import opened Wrappers
  import opened NestedDicts
  import opened NestedDictsProofs

  // ---------------------------------------------------------------- total depth

  /** The depths of all leaves, added up, in a dictionary that stands `n` levels deep. */
  function Weight<A>(d: Dict<A>, n: nat): nat {
    match d
    case Empty => 0
    case Item(_, v, rest) => ValueWeight(v, n) + Weight(rest, n)
  }

  function ValueWeight<A>(v: Value<A>, n: nat): nat {
    match v case Leaf(_) => n + 1 case Sub(s) => Weight(s, n + 1)
  }

  function TotalParts<A>(flat: Flat<A>): nat {
    if flat == [] then 0 else |DecodeKey(flat[0].0)| + TotalParts(flat[1..])
  }

  function Depth(parent: string): nat {
    if parent == "" then 0 else |DecodeKey(parent)|
  }

  lemma {:induction false} TotalAppend<A>(a: Flat<A>, b: Flat<A>)
    ensures TotalParts(a + b) == TotalParts(a) + TotalParts(b)
  {
    if a == [] {
      assert a + b == b;
    } else {
      TotalAppend(a[1..], b);
      assert (a + b)[1..] == a[1..] + b;
    }
  }

  lemma TotalPut<A>(flat: Flat<A>, key: string, value: A)
    ensures TotalParts(PutFlat(flat, key, value)) <= TotalParts(flat) + |DecodeKey(key)|
  {
  }

  lemma {:induction false} TotalFromItems<A>(items: Flat<A>)
    ensures TotalParts(FromItems(items)) <= TotalParts(items)
  {
    if items != [] {
      var n := |items| - 1;
      TotalFromItems(items[..n]);
      TotalPut(FromItems(items[..n]), items[n].0, items[n].1);
      TotalAppend(items[..n], [items[n]]);
      assert items[..n] + [items[n]] == items;
    }
  }

  /** A backslash at the end of the parent keeps the new key from getting deeper. */
  lemma JoinedDepth(parent: string, key: string)
    ensures |DecodeKey(FlatKey(parent, key))| ==
            Depth(parent) + if parent != "" && EndsInBackslash(parent) then 0 else 1
  {
    if parent == "" {
      DecodeSingle(key);
    } else if EndsInBackslash(parent) {
      SplitSwallowed(parent, Escape(key), false);
      SplitEscaped(key, false);
    } else {
      DecodeJoined(parent, key);
    }
  }

  lemma {:induction false} PiecesTotal<A>(d: Dict<A>, parent: string, n: nat)
    requires Depth(parent) <= n
    ensures TotalParts(Pieces(d, parent)) <= Weight(d, n)
    decreases d, 0
  {
    match d
    case Empty =>
    case Item(k, v, rest) =>
      JoinedDepth(parent, k);
      FoundTotal(v, FlatKey(parent, k), n);
      PiecesTotal(rest, parent, n);
      TotalAppend(Found(v, FlatKey(parent, k)), Pieces(rest, parent));
  }

  lemma {:induction false} FoundTotal<A>(v: Value<A>, newKey: string, n: nat)
    requires |DecodeKey(newKey)| <= n + 1
    ensures TotalParts(Found(v, newKey)) <= ValueWeight(v, n)
    decreases v, 1
  {
    match v
    case Leaf(_) =>
    case Sub(s) =>
      PiecesTotal(s, newKey, n + 1);
      TotalFromItems(Pieces(s, newKey));
  }

  /** Depth is lost at this parent already, or at an unsafe key further down. */
  ghost predicate Loses<A>(d: Dict<A>, parent: string, n: nat) {
    || (d != Empty && (Depth(parent) < n || EndsInBackslash(parent)))
    || !KeysSafe(d, parent == "")
  }

  lemma {:induction false} PiecesLose<A>(d: Dict<A>, parent: string, n: nat)
    requires Depth(parent) <= n && NoEmptySub(d) && Loses(d, parent, n)
    ensures TotalParts(Pieces(d, parent)) < Weight(d, n)
    decreases d, 0
  {
    var k, v, rest := d.key, d.value, d.rest;
    var newKey := FlatKey(parent, k);
    JoinedDepth(parent, k);
    FoundTotal(v, newKey, n);
    PiecesTotal(rest, parent, n);
    TotalAppend(Found(v, newKey), Pieces(rest, parent));
    if !KeysSafe(rest, parent == "") {
      PiecesLose(rest, parent, n);
    } else {
      EscapeLast(k);
      FoundLose(k, v, parent, n);
    }
  }

  lemma {:induction false} FoundLose<A>(k: string, v: Value<A>, parent: string, n: nat)
    requires Depth(parent) <= n && |DecodeKey(FlatKey(parent, k))| <= n + 1
    requires v.Sub? ==> v.dict != Empty && NoEmptySub(v.dict)
    requires Loses(Item(k, v, Empty), parent, n)
    ensures TotalParts(Found(v, FlatKey(parent, k))) < ValueWeight(v, n)
    decreases v, 1
  {
    var newKey := FlatKey(parent, k);
    match v
    case Leaf(a) =>
      LosesHere(k, a, parent, n);
      assert TotalParts([(newKey, a)]) == |DecodeKey(newKey)| + TotalParts<A>([]);
    case Sub(d) =>
      LosesBelow(k, d, parent, n);
      PiecesLose(d, newKey, n + 1);
      TotalFromItems(Pieces(d, newKey));
  }

  lemma LosesHere<A>(k: string, a: A, parent: string, n: nat)
    requires Depth(parent) <= n && Loses(Item(k, Leaf(a), Empty), parent, n)
    ensures |DecodeKey(FlatKey(parent, k))| < n + 1
  {
    JoinedDepth(parent, k);
    assert KeysSafe<A>(Empty, parent == "");
  }

  lemma LosesBelow<A>(k: string, d: Dict<A>, parent: string, n: nat)
    requires Depth(parent) <= n && d != Empty && Loses(Item(k, Sub(d), Empty), parent, n)
    ensures Depth(FlatKey(parent, k)) <= n + 1 && Loses(d, FlatKey(parent, k), n + 1)
  {
    var newKey := FlatKey(parent, k);
    JoinedDepth(parent, k);
    EscapeLast(k);
    assert KeysSafe<A>(Empty, parent == "");
    assert EndsInBackslash(k) ==> newKey[|newKey| - 1] == Escape(k)[|Escape(k)| - 1];
  }

  // ---------------------------------------------------------------- rebuilding adds no depth

  lemma {:induction false} ChainWeight<A>(path: seq<string>, v: A, n: nat)
    ensures ValueWeight(Chain(path, v), n) == n + 1 + |path|
  {
    if path != [] {
      ChainWeight(path[1..], v, n + 1);
      var below := Item(path[0], Chain(path[1..], v), Empty);
      assert Weight(below, n + 1) == ValueWeight(below.value, n + 1) + Weight(below.rest, n + 1);
    }
  }

  lemma {:induction false} InsertWeight<A>(d: Dict<A>, path: Path, v: A, n: nat)
    ensures var r := Insert(d, path, v);
            r.Ok? ==> Weight(r.value, n) <= Weight(d, n) + n + |path|
    decreases |path|, d
  {
    match d
    case Empty => ChainWeight(path[1..], v, n);
    case Item(k, w, rest) =>
      if k != path[0] {
        InsertWeight(rest, path, v, n);
      } else if |path| > 1 && w.Sub? {
        InsertWeight(w.dict, path[1..], v, n + 1);
      }
  }

  lemma {:induction false} InsertAllWeight<A>(d: Dict<A>, flat: Flat<A>)
    ensures var r := InsertAll(d, DecodeAll(flat));
            r.Ok? ==> Weight(r.value, 0) <= Weight(d, 0) + TotalParts(flat)
    decreases |flat|
  {
    if flat != [] {
      var path := DecodeKey(flat[0].0);
      InsertWeight(d, path, flat[0].1, 0);
      match Insert(d, path, flat[0].1)
      case Ok(r) => InsertAllWeight(r, flat[1..]);
      case TypeError =>
    }
  }

  lemma ChainSound<A>(path: seq<string>, v: A)
    ensures var w := Chain(path, v);
            w.Sub? ==> w.dict != Empty && Distinct(w.dict) && NoEmptySub(w.dict)
  {
  }

  lemma {:induction false} InsertSound<A>(d: Dict<A>, path: Path, v: A)
    requires Distinct(d) && NoEmptySub(d)
    ensures var r := Insert(d, path, v);
            r.Ok? ==>
              && Distinct(r.value) && NoEmptySub(r.value) && r.value != Empty
              && Keys(r.value) == Keys(d) + {path[0]}
    decreases |path|, d
  {
    match d
    case Empty => ChainSound(path[1..], v);
    case Item(k, w, rest) =>
      if k != path[0] {
        InsertSound(rest, path, v);
      } else if |path| > 1 && w.Sub? {
        InsertSound(w.dict, path[1..], v);
      }
  }

  lemma {:induction false} InsertAllSound<A>(d: Dict<A>, leaves: Leaves<A>)
    requires Distinct(d) && NoEmptySub(d)
    ensures var r := InsertAll(d, leaves); r.Ok? ==> Distinct(r.value) && NoEmptySub(r.value)
    decreases |leaves|
  {
    if leaves != [] {
      InsertSound(d, leaves[0].0, leaves[0].1);
      match Insert(d, leaves[0].0, leaves[0].1)
      case Ok(r) => InsertAllSound(r, leaves[1..]);
      case TypeError =>
    }
  }

  // ---------------------------------------------------------------- equal dictionaries weigh the same

  function Remove<A>(d: Dict<A>, key: string): Dict<A> {
    match d
    case Empty => Empty
    case Item(k, v, rest) => if k == key then rest else Item(k, v, Remove(rest, key))
  }

  lemma GetKeys<A>(d: Dict<A>, key: string)
    ensures Get(d, key).Some? <==> key in Keys(d)
  {
  }

  lemma {:induction false} RemoveFacts<A>(d: Dict<A>, key: string, n: nat)
    requires Distinct(d) && Get(d, key).Some?
    ensures Distinct(Remove(d, key)) && Len(Remove(d, key)) == Len(d) - 1
    ensures Keys(Remove(d, key)) == Keys(d) - {key}
    ensures Weight(d, n) == ValueWeight(Get(d, key).get, n) + Weight(Remove(d, key), n)
  {
    GetKeys(d.rest, key);
    if d.key != key {
      RemoveFacts(d.rest, key, n);
    }
  }

  lemma GetOther<A>(d: Dict<A>, key: string, other: string)
    requires key != other
    ensures Get(Remove(d, key), other) == Get(d, other)
  {
  }

  lemma WithinRemove<A>(a: Dict<A>, b: Dict<A>, key: string)
    requires key !in Keys(a) && Within(a, b)
    ensures Within(a, Remove(b, key))
  {
    match a
    case Empty =>
    case Item(k, v, rest) =>
      GetOther(b, key, k);
      WithinRemove(rest, b, key);
  }

  lemma GetDistinct<A>(d: Dict<A>, key: string)
    requires Distinct(d)
    ensures match Get(d, key) case Some(Sub(s)) => Distinct(s) case _ => true
  {
  }

  lemma {:induction false} EqualWeight<A>(a: Dict<A>, b: Dict<A>, n: nat)
    requires Distinct(a) && Distinct(b) && DictEq(a, b)
    ensures Weight(a, n) == Weight(b, n)
    decreases a
  {
    match a
    case Empty =>
    case Item(k, v, rest) =>
      RemoveFacts(b, k, n);
      WithinRemove(rest, b, k);
      GetDistinct(b, k);
      EqualWeight(rest, Remove(b, k), n);
      if v.Sub? {
        EqualWeight(v.dict, Get(b, k).get.dict, n + 1);
      }
  }

  lemma GetNoEmpty<A>(d: Dict<A>, key: string)
    requires NoEmptySub(d)
    ensures match Get(d, key) case Some(Sub(s)) => s != Empty && NoEmptySub(s) case _ => true
  {
  }

  lemma {:induction false} EqualNoEmpty<A>(a: Dict<A>, b: Dict<A>)
    requires Within(a, b) && NoEmptySub(b)
    ensures NoEmptySub(a)
  {
    match a
    case Empty =>
    case Item(k, v, rest) =>
      EqualNoEmpty(rest, b);
      GetNoEmpty(b, k);
      if v.Sub? {
        EqualNoEmpty(v.dict, Get(b, k).get.dict);
      }
  }

  lemma EqualSelf<A>(d: Dict<A>)
    requires Distinct(d)
    ensures DictEq(d, d)
  {
    WithinSelf(d, d);
  }

  lemma {:induction false} WithinSelf<A>(part: Dict<A>, d: Dict<A>)
    requires Distinct(part)
    requires forall k <- Keys(part) :: Get(d, k) == Get(part, k)
    ensures Within(part, d)
  {
    match part
    case Empty =>
    case Item(k, v, rest) =>
      assert Get(part, k) == Some(v);
      forall j <- Keys(rest)
        ensures Get(d, j) == Get(rest, j)
      {
        assert j in Keys(part);
      }
      WithinSelf(rest, d);
      if v.Sub? {
        EqualSelf(v.dict);
      }
  }

  // ---------------------------------------------------------------- the round trip, exactly

  /** Unflattening undoes flattening on exactly the safe dictionaries. */
  lemma RoundTripExactly<A>(d: Dict<A>)
    requires Distinct(d)
    ensures Safe(d) <==>
            var back := Unflatten(Flatten(d, ""));
            back.Ok? && DictEq(d, back.value)
  {
    var back := Unflatten(Flatten(d, ""));
    if Safe(d) {
      SafeRoundTrip(d);
      EqualSelf(d);
    } else if back.Ok? && DictEq(d, back.value) {
      InsertAllSound<A>(Empty, DecodeAll(Flatten(d, "")));
      EqualNoEmpty(d, back.value);
      EqualWeight(d, back.value, 0);
      InsertAllWeight(Empty, Flatten(d, ""));
      PiecesLose(d, "", 0);
      TotalFromItems(Pieces(d, ""));
    }
  }

  /** An unsafe one: under a key that ends in a backslash, two levels come back as one. */
  lemma BackslashLost()
    ensures var d := Item("a\\", Sub(Item("b", Leaf(1), Empty)), Empty);
            Unflatten(Flatten(d, "")) == Ok(Item("a.b", Leaf(1), Empty))
  {
    var inner := Item("b", Leaf(1), Empty);
    var d := Item("a\\", Sub(inner), Empty);
    assert Escape("b") == "b" && Escape("a\\") == "a\\" by {
      assert "b"[1..] == "" && "a\\"[1..] == "\\" && "\\"[1..] == "";
    }
    assert FlatKey("a\\", "b") == "a\\.b" && FlatKey("", "a\\") == "a\\";
    assert Pieces(inner, "a\\") == [("a\\.b", 1)];
    FromOne("a\\.b", 1);
    assert Pieces(d, "") == [("a\\.b", 1)];
    DecodeExample();
    assert DecodeAll([("a\\.b", 1)]) == [(DecodeKey("a\\.b"), 1)];
  }

  lemma FromOne<A>(key: string, value: A)
    ensures FromItems([(key, value)]) == [(key, value)]
  {
    assert [(key, value)][..0] == [];
  }

  lemma SplitCons(c: char, key: string, behind: bool, part: string)
    requires SplitKey(key, c == '\\') == [part] && !(c == '.' && !behind)
    ensures SplitKey([c] + key, behind) == [[c] + part]
  {
    assert ([c] + key)[1..] == key;
  }

  lemma DecodeExample()
    ensures DecodeKey("a\\.b") == ["a.b"]
  {
    assert ['a'] + "\\.b" == "a\\.b" && ['\\'] + ".b" == "\\.b" && ['.'] + "b" == ".b" && ['b'] + "" == "b";
    SplitCons('b', "", false, "");
    SplitCons('.', "b", true, "b");
    SplitCons('\\', ".b", false, ".b");
    SplitCons('a', "\\.b", false, "\\.b");
    assert "a\\.b"[1..] == "\\.b" && "b"[1..] == "";
    assert "\\.b"[2..] == "b" && Unescape("b") == "b";
    assert Unescape("\\.b") == ".b";
    assert Unescape("a\\.b") == "a.b";
  }

  // ---------------------------------------------------------------- merge

  /** Assign `v` at `key`: in place when the key is there, at the end when it is not. */
  function Put<A>(d: Dict<A>, key: string, v: Value<A>): Dict<A> {
    match d
    case Empty => Item(key, v, Empty)
    case Item(k, w, rest) => if k == key then Item(k, v, rest) else Item(k, w, Put(rest, key, v))
  }

  function Merge<A>(a: Dict<A>, b: Dict<A>): Dict<A>
    decreases b
  {
    match b
    case Empty => a
    case Item(k, v, rest) =>
      var old' := Get(a, k);
      var new' := if old'.Some? && old'.get.Sub? && v.Sub? then Sub(Merge(old'.get.dict, v.dict)) else v;
      Merge(Put(a, k, new'), rest)
  }

  method MergeDicts<A>(a: Dict<A>, b: Dict<A>) returns (r: Dict<A>)
    ensures r == Merge(a, b)
    decreases b
  {
    r := a;
    var todo := b;
    while todo.Item?
      invariant Merge(r, todo) == Merge(a, b)
      invariant todo == b || todo < b
      decreases todo
    {
      var key := todo.key;
      var mine := Get(r, key);
      if mine.Some? && mine.get.Sub? && todo.value.Sub? {
        var nested := MergeDicts(mine.get.dict, todo.value.dict);
        r := Put(r, key, Sub(nested));
      } else {
        r := Put(r, key, todo.value);
      }
      todo := todo.rest;
    }
  }

  /** The leaf a path leads to, if it leads to one. */
  function LeafAt<A>(d: Dict<A>, path: Path): Option<A>
    decreases |path|
  {
    match Get(d, path[0])
    case None => None
    case Some(Leaf(a)) => if |path| == 1 then Some(a) else None
    case Some(Sub(s)) => if |path| == 1 then None else LeafAt(s, path[1..])
  }

  /** `b` has a leaf on the way to `path`, or a whole dictionary in its place. */
  predicate Covers<A>(b: Dict<A>, path: Path)
    decreases |path|
  {
    match Get(b, path[0])
    case None => false
    case Some(Leaf(_)) => |path| > 1
    case Some(Sub(s)) => |path| == 1 || Covers(s, path[1..])
  }

  lemma PutGet<A>(d: Dict<A>, key: string, v: Value<A>, other: string)
    ensures Get(Put(d, key, v), other) == if other == key then Some(v) else Get(d, other)
  {
  }

  lemma {:induction false} MergeGet<A>(a: Dict<A>, b: Dict<A>, key: string)
    requires Distinct(b)
    ensures Get(Merge(a, b), key) ==
            match (Get(a, key), Get(b, key))
            case (Some(Sub(x)), Some(Sub(y))) => Some(Sub(Merge(x, y)))
            case (_, Some(w)) => Some(w)
            case (v, None) => v
    decreases b
  {
    match b
    case Empty =>
    case Item(k, v, rest) =>
      var mine := Get(a, k);
      var put := if mine.Some? && mine.get.Sub? && v.Sub? then Sub(Merge(mine.get.dict, v.dict)) else v;
      PutGet(a, k, put, key);
      GetKeys(rest, key);
      MergeGet(Put(a, k, put), rest, key);
  }

  /** Merging decides every path: `b` wins where it speaks, `a` stays where `b` is silent. */
  lemma {:induction false} MergeLeaf<A>(a: Dict<A>, b: Dict<A>, path: Path)
    requires Distinct(b)
    ensures LeafAt(Merge(a, b), path) ==
            if LeafAt(b, path).Some? then LeafAt(b, path)
            else if Covers(b, path) then None
            else LeafAt(a, path)
    decreases |path|
  {
    MergeGet(a, b, path[0]);
    GetDistinct(b, path[0]);
    match (Get(a, path[0]), Get(b, path[0]))
    case (Some(Sub(x)), Some(Sub(y))) => if |path| > 1 { MergeLeaf(x, y, path[1..]); }
    case (_, Some(Sub(y))) => if |path| > 1 { SilentOrCovered(y, path[1..]); }
    case _ =>
  }

  /** With nothing of `a` below, a path `b` is silent on has no leaf either way. */
  lemma SilentOrCovered<A>(b: Dict<A>, path: Path)
    ensures LeafAt(b, path).Some? ==> !Covers(b, path)
    decreases |path|
  {
  }
}
