/** What flattening, rebuilding and merging promise about each other. */
module NestedDictsProofs {
  import opened Wrappers
  import opened NestedDicts

  // ---------------------------------------------------------------- one key

  predicate EndsInBackslash(s: string) {
    |s| > 0 && s[|s| - 1] == '\\'
  }

  /** Only a backslash before a dot is taken away. */
  lemma {:induction false} UnescapePlain(part: string)
    requires forall i :: 0 < i < |part| && part[i] == '.' ==> part[i - 1] != '\\'
    ensures Unescape(part) == part
  {
    if part != "" {
      var rest := part[1..];
      assert forall i :: 0 < i < |rest| ==> rest[i] == part[i + 1] && rest[i - 1] == part[i];
      UnescapePlain(rest);
    }
  }

  lemma {:induction false} UnescapeEscape(key: string)
    ensures Unescape(Escape(key)) == key
  {
    if key != "" {
      UnescapeEscape(key[1..]);
      var rest := Escape(key[1..]);
      if key[0] == '.' {
        assert ("\\." + rest)[2..] == rest;
      } else {
        EscapeStart(key[1..]);
        assert ([key[0]] + rest)[1..] == rest;
      }
    }
  }

  lemma EscapeStart(key: string)
    ensures Escape(key) != "" ==> Escape(key)[0] != '.'
  {
  }

  /** An escaped key is never split. */
  lemma {:induction false} SplitEscaped(key: string, behind: bool)
    ensures SplitKey(Escape(key), behind) == [Escape(key)]
  {
    if key == "" {
    } else if key[0] == '.' {
      var rest := Escape(key[1..]);
      SplitEscaped(key[1..], false);
      assert Escape(key) == ['\\'] + (['.'] + rest);
      SplitCons('\\', ['.'] + rest, behind);
      SplitCons('.', rest, true);
    } else {
      SplitEscaped(key[1..], key[0] == '\\');
      SplitCons(key[0], Escape(key[1..]), behind);
    }
  }

  lemma SplitCons(c: char, s: string, behind: bool)
    ensures SplitKey([c] + s, behind) ==
            if c == '.' && !behind then [""] + SplitKey(s, false)
            else var rest := SplitKey(s, c == '\\'); [[c] + rest[0]] + rest[1..]
  {
    assert ([c] + s)[1..] == s;
  }

  lemma Longer(c: char, a: seq<string>, b: seq<string>)
    requires a != []
    ensures [[c] + (a + b)[0]] + (a + b)[1..] == ([[c] + a[0]] + a[1..]) + b
    ensures [""] + (a + b) == ([""] + a) + b
  {
  }

  /** The joining dot splits exactly when no backslash stands before it. */
  lemma {:induction false} SplitJoined(s: string, t: string, behind: bool)
    requires if s == "" then !behind else !EndsInBackslash(s)
    ensures SplitKey(s + "." + t, behind) == SplitKey(s, behind) + SplitKey(t, false)
  {
    if s == "" {
      SplitCons('.', t, behind);
      assert s + "." + t == ['.'] + t;
    } else {
      var c, rest := s[0], s[1..];
      assert s == [c] + rest && s + "." + t == [c] + (rest + "." + t);
      SplitCons(c, rest + "." + t, behind);
      SplitCons(c, rest, behind);
      SplitJoined(rest, t, c == '\\');
      Longer(c, SplitKey(rest, c == '\\'), SplitKey(t, false));
    }
  }

  /** A backslash before the joining dot swallows it: the last part just grows. */
  lemma {:induction false} SplitSwallowed(s: string, t: string, behind: bool)
    requires if s == "" then behind else EndsInBackslash(s)
    ensures |SplitKey(s + "." + t, behind)| == |SplitKey(s, behind)| + |SplitKey(t, false)| - 1
  {
    var joined := s + "." + t;
    if s == "" {
      assert joined[1..] == t;
    } else {
      assert joined[1..] == s[1..] + "." + t;
      SplitSwallowed(s[1..], t, s[0] == '\\');
    }
  }

  lemma UnescapeAllAppend(a: seq<string>, b: seq<string>)
    ensures UnescapeAll(a + b) == UnescapeAll(a) + UnescapeAll(b)
  {
    if a == [] {
      assert a + b == b;
    } else {
      assert (a + b)[1..] == a[1..] + b;
    }
  }

  lemma EscapeLast(key: string)
    ensures EndsInBackslash(Escape(key)) == EndsInBackslash(key)
    ensures Escape(key) == "" <==> key == ""
  {
  }

  /** A joined key decodes to one more part than its parent. */
  lemma DecodeJoined(parent: string, key: string)
    requires parent != "" && !EndsInBackslash(parent)
    ensures DecodeKey(parent + "." + Escape(key)) == DecodeKey(parent) + [key]
  {
    SplitJoined(parent, Escape(key), false);
    SplitEscaped(key, false);
    UnescapeEscape(key);
    UnescapeAllAppend(SplitKey(parent, false), [Escape(key)]);
    assert UnescapeAll([Escape(key)]) == [key];
  }

  lemma DecodeSingle(key: string)
    ensures DecodeKey(Escape(key)) == [key]
  {
    SplitEscaped(key, false);
    UnescapeEscape(key);
    assert UnescapeAll([Escape(key)]) == [key];
  }

  // ---------------------------------------------------------------- leaves of a tree

  /** Put `prefix` before every path. */
  function Under<A>(prefix: seq<string>, leaves: Leaves<A>): (r: Leaves<A>)
    ensures |r| == |leaves|
  {
    if leaves == [] then [] else [(prefix + leaves[0].0, leaves[0].1)] + Under(prefix, leaves[1..])
  }

  /** Every leaf with its true path, in the order of iteration. */
  function LeavesOf<A>(d: Dict<A>): Leaves<A> {
    match d
    case Empty => []
    case Item(k, v, rest) =>
      (match v case Leaf(a) => [([k], a)] case Sub(s) => Under([k], LeavesOf(s))) + LeavesOf(rest)
  }

  lemma UnderAppend<A>(prefix: seq<string>, a: Leaves<A>, b: Leaves<A>)
    ensures Under(prefix, a + b) == Under(prefix, a) + Under(prefix, b)
  {
    if a == [] {
      assert a + b == b;
    } else {
      assert (a + b)[1..] == a[1..] + b;
      UnderAppend(prefix, a[1..], b);
    }
  }

  lemma UnderUnder<A>(p: seq<string>, q: seq<string>, leaves: Leaves<A>)
    ensures Under(p, Under(q, leaves)) == Under(p + q, leaves)
  {
    if leaves != [] {
      UnderUnder(p, q, leaves[1..]);
      assert p + (q + leaves[0].0) == p + q + leaves[0].0;
    }
  }

  lemma DecodeAllAppend<A>(a: Flat<A>, b: Flat<A>)
    ensures DecodeAll(a + b) == DecodeAll(a) + DecodeAll(b)
  {
    if a == [] {
      assert a + b == b;
    } else {
      assert (a + b)[1..] == a[1..] + b;
      DecodeAllAppend(a[1..], b);
    }
  }

  // ---------------------------------------------------------------- when it is safe

  /** No nested dictionary is empty (an empty one leaves no key behind). */
  predicate NoEmptySub<A>(d: Dict<A>) {
    match d
    case Empty => true
    case Item(_, v, rest) => (v.Sub? ==> v.dict != Empty && NoEmptySub(v.dict)) && NoEmptySub(rest)
  }

  /** No key of a nested dictionary ends in a backslash, and none is empty at the top level. */
  predicate KeysSafe<A>(d: Dict<A>, top: bool) {
    match d
    case Empty => true
    case Item(k, v, rest) =>
      && (v.Sub? ==> !EndsInBackslash(k) && !(top && k == "") && KeysSafe(v.dict, false))
      && KeysSafe(rest, top)
  }

  /** What a caller can check before relying on the round trip. */
  predicate Safe<A>(d: Dict<A>) {
    NoEmptySub(d) && KeysSafe(d, true)
  }

  // ---------------------------------------------------------------- safe trees come back

  lemma UnderAt<A>(prefix: seq<string>, leaves: Leaves<A>, i: nat)
    requires i < |leaves|
    ensures Under(prefix, leaves)[i] == (prefix + leaves[i].0, leaves[i].1)
  {
    if i > 0 {
      UnderAt(prefix, leaves[1..], i - 1);
    }
  }

  lemma FirstKeys<A>(d: Dict<A>, i: nat)
    requires i < |LeavesOf(d)|
    ensures LeavesOf(d)[i].0[0] in Keys(d)
  {
    match d
    case Empty =>
    case Item(k, v, rest) =>
      var first := if v.Leaf? then [([k], v.leaf)] else Under([k], LeavesOf(v.dict));
      if i >= |first| {
        FirstKeys(rest, i - |first|);
      } else if v.Sub? {
        UnderAt([k], LeavesOf(v.dict), i);
      }
  }

  /** No leaf's path is a prefix of another's, so rebuilding never meets a leaf on its way. */
  lemma {:induction false} PrefixFree<A>(d: Dict<A>, i: nat, j: nat)
    requires Distinct(d) && i < |LeavesOf(d)| && j < |LeavesOf(d)|
    requires LeavesOf(d)[i].0 <= LeavesOf(d)[j].0
    ensures i == j
  {
    match d
    case Empty =>
    case Item(k, v, rest) =>
      var first := if v.Leaf? then [([k], v.leaf)] else Under([k], LeavesOf(v.dict));
      var n := |first|;
      if i >= n && j >= n {
        PrefixFree(rest, i - n, j - n);
      } else {
        if v.Sub? && i < n {
          UnderAt([k], LeavesOf(v.dict), i);
        }
        if v.Sub? && j < n {
          UnderAt([k], LeavesOf(v.dict), j);
        }
        if i < n && j < n {
          if v.Sub? {
            var p, q := LeavesOf(v.dict)[i].0, LeavesOf(v.dict)[j].0;
            assert ([k] + p)[1..] == p && ([k] + q)[1..] == q;
            PrefixFree(v.dict, i, j);
          }
        } else if i < n {
          FirstKeys(rest, j - n);
        } else {
          FirstKeys(rest, i - n);
        }
      }
  }

  ghost predicate KeysDiffer<A>(flat: Flat<A>) {
    forall i, j :: 0 <= i < j < |flat| ==> flat[i].0 != flat[j].0
  }

  function Sought<A>(flat: Flat<A>, key: string): Option<A> {
    if flat == [] then None else if flat[0].0 == key then Some(flat[0].1) else Sought(flat[1..], key)
  }

  function LastFor<A>(items: Flat<A>, key: string): Option<A> {
    if items == [] then None
    else
      var (k, v) := items[|items| - 1];
      if k == key then Some(v) else LastFor(items[..|items| - 1], key)
  }

  lemma {:induction false} SoughtNone<A>(flat: Flat<A>, key: string)
    ensures Sought(flat, key) == None <==> forall i :: 0 <= i < |flat| ==> flat[i].0 != key
  {
    if flat != [] {
      SoughtNone(flat[1..], key);
      assert forall i :: 0 < i < |flat| ==> flat[i] == flat[1..][i - 1];
    }
  }

  lemma DifferCons<A>(flat: Flat<A>)
    requires flat != []
    ensures KeysDiffer(flat) <==> Sought(flat[1..], flat[0].0) == None && KeysDiffer(flat[1..])
  {
    SoughtNone(flat[1..], flat[0].0);
    assert forall i :: 0 < i < |flat| ==> flat[i] == flat[1..][i - 1];
    if KeysDiffer(flat) {
      forall i, j | 0 <= i < j < |flat| - 1
        ensures flat[1..][i].0 != flat[1..][j].0
      {
        assert flat[i + 1].0 != flat[j + 1].0;
      }
    }
  }

  lemma {:induction false} PutExactly<A>(flat: Flat<A>, key: string, value: A, q: string)
    ensures Sought(PutFlat(flat, key, value), q) == if q == key then Some(value) else Sought(flat, q)
  {
    if flat != [] && flat[0].0 != key {
      PutExactly(flat[1..], key, value, q);
    }
  }

  lemma {:induction false} PutDiffer<A>(flat: Flat<A>, key: string, value: A)
    requires KeysDiffer(flat)
    ensures KeysDiffer(PutFlat(flat, key, value))
  {
    if flat != [] {
      DifferCons(flat);
      DifferCons(PutFlat(flat, key, value));
      if flat[0].0 != key {
        PutDiffer(flat[1..], key, value);
        PutExactly(flat[1..], key, value, flat[0].0);
      }
    }
  }

  /** `dict(items)` has every key once, with the last value given for it. */
  lemma {:induction false} FromItemsExactly<A>(items: Flat<A>, key: string)
    ensures KeysDiffer(FromItems(items)) && Sought(FromItems(items), key) == LastFor(items, key)
    decreases |items|
  {
    if items != [] {
      var n := |items| - 1;
      FromItemsExactly(items[..n], key);
      PutDiffer(FromItems(items[..n]), items[n].0, items[n].1);
      PutExactly(FromItems(items[..n]), items[n].0, items[n].1, key);
    }
  }

  lemma PutNew<A>(flat: Flat<A>, key: string, value: A)
    requires forall i :: 0 <= i < |flat| ==> flat[i].0 != key
    ensures PutFlat(flat, key, value) == flat + [(key, value)]
  {
  }

  lemma {:induction false} FromDifferent<A>(items: Flat<A>)
    requires KeysDiffer(items)
    ensures FromItems(items) == items
  {
    if items != [] {
      var n := |items| - 1;
      FromDifferent(items[..n]);
      PutNew(items[..n], items[n].0, items[n].1);
    }
  }

  lemma DecodeAllAt<A>(flat: Flat<A>, i: nat)
    requires i < |flat|
    ensures DecodeAll(flat)[i] == (DecodeKey(flat[i].0), flat[i].1)
  {
    if i > 0 {
      DecodeAllAt(flat[1..], i - 1);
    }
  }

  /** The parent string a nested call gets, and the path it stands for. */
  ghost predicate Stands(parent: string, path: seq<string>) {
    if parent == "" then path == []
    else !EndsInBackslash(parent) && DecodeKey(parent) == path
  }

  lemma StandsBelow(parent: string, path: seq<string>, key: string)
    requires Stands(parent, path)
    ensures DecodeKey(FlatKey(parent, key)) == path + [key]
    ensures !EndsInBackslash(key) && !(parent == "" && key == "")
            ==> Stands(FlatKey(parent, key), path + [key])
  {
    EscapeLast(key);
    if parent == "" {
      DecodeSingle(key);
    } else {
      DecodeJoined(parent, key);
    }
  }

  /** The pieces of a safe dictionary decode to its leaves, each under its true path. */
  lemma {:induction false} PiecesDecode<A>(d: Dict<A>, parent: string, path: seq<string>)
    requires Distinct(d) && KeysSafe(d, parent == "") && Stands(parent, path)
    ensures DecodeAll(Pieces(d, parent)) == Under(path, LeavesOf(d))
    decreases d, 0
  {
    match d
    case Empty =>
    case Item(k, v, rest) =>
      var newKey := FlatKey(parent, k);
      StandsBelow(parent, path, k);
      PiecesDecode(rest, parent, path);
      match v {
        case Leaf(a) =>
          DecodeAllAppend([(newKey, a)], Pieces(rest, parent));
          UnderAppend(path, [([k], a)], LeavesOf(rest));
        case Sub(s) =>
          FlattenDecode(s, newKey, path + [k]);
          DecodeAllAppend(Flatten(s, newKey), Pieces(rest, parent));
          UnderAppend(path, Under([k], LeavesOf(s)), LeavesOf(rest));
          UnderUnder(path, [k], LeavesOf(s));
      }
  }

  /** The flat keys of a safe dictionary are pairwise distinct, so nothing is overwritten. */
  lemma {:induction false} FlattenDecode<A>(d: Dict<A>, parent: string, path: seq<string>)
    requires Distinct(d) && KeysSafe(d, parent == "") && Stands(parent, path)
    ensures KeysDiffer(Flatten(d, parent))
    ensures DecodeAll(Flatten(d, parent)) == Under(path, LeavesOf(d))
    decreases d, 1
  {
    PiecesDecode(d, parent, path);
    var pieces := Pieces(d, parent);
    forall i, j | 0 <= i < j < |pieces|
      ensures pieces[i].0 != pieces[j].0
    {
      DecodeAllAt(pieces, i);
      DecodeAllAt(pieces, j);
      UnderAt(path, LeavesOf(d), i);
      UnderAt(path, LeavesOf(d), j);
      if pieces[i].0 == pieces[j].0 {
        var p, q := LeavesOf(d)[i].0, LeavesOf(d)[j].0;
        assert (path + p)[|path|..] == p && (path + q)[|path|..] == q;
        PrefixFree(d, i, j);
      }
    }
    FromDifferent(pieces);
  }

  // ---------------------------------------------------------------- rebuilding from leaves

  lemma InsertAllAppend<A>(d: Dict<A>, a: Leaves<A>, b: Leaves<A>)
    ensures InsertAll(d, a + b) ==
            match InsertAll(d, a) case Ok(r) => InsertAll(r, b) case TypeError => TypeError
    decreases |a|
  {
    if a == [] {
      assert a + b == b;
    } else {
      assert (a + b)[1..] == a[1..] + b;
      match Insert(d, a[0].0, a[0].1)
      case Ok(r) => InsertAllAppend(r, a[1..], b);
      case TypeError =>
    }
  }

  lemma {:induction d} InsertNew<A>(d: Dict<A>, path: Path, v: A)
    requires path[0] !in Keys(d)
    ensures Insert(d, path, v) == Ok(Append(d, Item(path[0], Chain(path[1..], v), Empty)))
  {
  }

  lemma {:induction d} InsertInLast<A>(d: Dict<A>, k: string, s: Dict<A>, path: Path, v: A)
    requires k !in Keys(d)
    ensures Insert(Append(d, Item(k, Sub(s), Empty)), [k] + path, v) ==
            match Insert(s, path, v)
            case Ok(r) => Ok(Append(d, Item(k, Sub(r), Empty)))
            case TypeError => TypeError
  {
    assert ([k] + path)[1..] == path;
  }

  lemma {:induction false} InsertAllInLast<A>(d: Dict<A>, k: string, s: Dict<A>, leaves: Leaves<A>)
    requires k !in Keys(d)
    ensures InsertAll(Append(d, Item(k, Sub(s), Empty)), Under([k], leaves)) ==
            match InsertAll(s, leaves)
            case Ok(r) => Ok(Append(d, Item(k, Sub(r), Empty)))
            case TypeError => TypeError
    decreases |leaves|
  {
    if leaves != [] {
      InsertInLast(d, k, s, leaves[0].0, leaves[0].1);
      match Insert(s, leaves[0].0, leaves[0].1)
      case Ok(r) => InsertAllInLast(d, k, r, leaves[1..]);
      case TypeError =>
    }
  }

  lemma LeavesNonempty<A>(d: Dict<A>)
    requires NoEmptySub(d) && d != Empty
    ensures LeavesOf(d) != []
  {
  }

  /** Inserting the leaves of one new nested dictionary appends exactly that dictionary. */
  lemma {:induction false} InsertSub<A>(d: Dict<A>, k: string, leaves: Leaves<A>)
    requires k !in Keys(d) && leaves != []
    ensures InsertAll(d, Under([k], leaves)) ==
            match InsertAll(Empty, leaves)
            case Ok(r) => Ok(Append(d, Item(k, Sub(r), Empty)))
            case TypeError => TypeError
  {
    var path, v := leaves[0].0, leaves[0].1;
    var first := Insert(Empty, path, v).value;
    assert ([k] + path)[1..] == path;
    assert Chain(path, v) == Sub(first);
    InsertNew(d, [k] + path, v);
    InsertAllInLast(d, k, first, leaves[1..]);
  }

  lemma AppendOne<A>(d: Dict<A>, k: string, v: Value<A>, rest: Dict<A>)
    ensures Append(Append(d, Item(k, v, Empty)), rest) == Append(d, Item(k, v, rest))
    ensures Keys(Append(d, Item(k, v, Empty))) == Keys(d) + {k}
  {
  }

  lemma AppendEmpty<A>(d: Dict<A>)
    ensures Append(d, Empty) == d
  {
  }

  lemma {:induction false} Rebuild<A>(done: Dict<A>, d: Dict<A>)
    requires Distinct(d) && NoEmptySub(d) && Keys(done) !! Keys(d)
    ensures InsertAll(done, LeavesOf(d)) == Ok(Append(done, d))
    decreases d
  {
    match d
    case Empty => AppendEmpty(done);
    case Item(k, v, rest) =>
      AppendOne(done, k, v, rest);
      Rebuild(Append(done, Item(k, v, Empty)), rest);
      match v {
        case Leaf(a) =>
          InsertNew(done, [k], a);
          InsertAllAppend(done, [([k], a)], LeavesOf(rest));
        case Sub(s) =>
          LeavesNonempty(s);
          Rebuild(Empty, s);
          InsertSub(done, k, LeavesOf(s));
          InsertAllAppend(done, Under([k], LeavesOf(s)), LeavesOf(rest));
      }
  }

  lemma UnderNothing<A>(leaves: Leaves<A>)
    ensures Under([], leaves) == leaves
  {
    if leaves != [] {
      UnderNothing(leaves[1..]);
      assert [] + leaves[0].0 == leaves[0].0;
    }
  }

  /** Every safe dictionary comes back, items in the same order at every depth. */
  lemma SafeRoundTrip<A>(d: Dict<A>)
    requires Distinct(d) && Safe(d)
    ensures Unflatten(Flatten(d, "")) == Ok(d)
  {
    FlattenDecode(d, "", []);
    UnderNothing(LeavesOf(d));
    Rebuild(Empty, d);
  }
}
