/** Nested dictionaries flattened to dotted keys, rebuilt from them, and merged. */
module NestedDicts {
  import opened Wrappers

  // ---------------------------------------------------------------- data

  /** A dictionary in insertion order; a value is a leaf or a nested dictionary. */
  datatype Dict<+A> = Empty | Item(key: string, value: Value<A>, rest: Dict<A>)
  datatype Value<+A> = Leaf(leaf: A) | Sub(dict: Dict<A>)

  /** Rebuilding fails (a TypeError) when it must descend into a leaf. */
  datatype Result<+T> = Ok(value: T) | TypeError

  type Path = p: seq<string> | |p| > 0 witness [""]
  type Flat<+A> = seq<(string, A)>
  type Leaves<+A> = seq<(Path, A)>

  function Keys<A>(d: Dict<A>): set<string> {
    match d
    case Empty => {}
    case Item(k, _, rest) => {k} + Keys(rest)
  }

  function Len<A>(d: Dict<A>): nat {
    match d
    case Empty => 0
    case Item(_, _, rest) => 1 + Len(rest)
  }

  function Get<A>(d: Dict<A>, key: string): Option<Value<A>> {
    match d
    case Empty => None
    case Item(k, v, rest) => if k == key then Some(v) else Get(rest, key)
  }

  /** What makes a chain of items a Python dict: no key twice, at any depth. */
  predicate Distinct<A>(d: Dict<A>) {
    match d
    case Empty => true
    case Item(k, v, rest) => k !in Keys(rest) && (v.Sub? ==> Distinct(v.dict)) && Distinct(rest)
  }

  function Append<A>(a: Dict<A>, b: Dict<A>): Dict<A> {
    match a
    case Empty => b
    case Item(k, v, rest) => Item(k, v, Append(rest, b))
  }

  /** Python's `==` on dictionaries: the order of the items does not matter. */
  ghost predicate DictEq<A>(a: Dict<A>, b: Dict<A>)
    decreases a, 1
  {
    Len(a) == Len(b) && Within(a, b)
  }

  ghost predicate Within<A>(a: Dict<A>, b: Dict<A>)
    decreases a, 0
  {
    match a
    case Empty => true
    case Item(k, v, rest) =>
      && Within(rest, b)
      && match Get(b, k)
         case None => false
         case Some(Leaf(y)) => v == Leaf(y)
         case Some(Sub(e)) => v.Sub? && DictEq(v.dict, e)
  }

  // ---------------------------------------------------------------- keys

  /** `key.replace(".", "\\.")` */
  function Escape(key: string): string {
    if key == "" then "" else (if key[0] == '.' then "\\." else [key[0]]) + Escape(key[1..])
  }

  /** `re.sub(r"\\\.", ".", part)` */
  function Unescape(part: string): string {
    if part == "" then ""
    else if |part| >= 2 && part[0] == '\\' && part[1] == '.' then "." + Unescape(part[2..])
    else [part[0]] + Unescape(part[1..])
  }

  /** `re.split(r"(?<!\\)\.", key)`; `behind` is whether a backslash stands just before `key`. */
  function SplitKey(key: string, behind: bool): (parts: seq<string>)
    ensures |parts| > 0
  {
    if key == "" then [""]
    else if key[0] == '.' && !behind then [""] + SplitKey(key[1..], false)
    else
      var rest := SplitKey(key[1..], key[0] == '\\');
      [[key[0]] + rest[0]] + rest[1..]
  }

  function UnescapeAll(parts: seq<string>): (r: seq<string>)
    ensures |r| == |parts|
  {
    if parts == [] then [] else [Unescape(parts[0])] + UnescapeAll(parts[1..])
  }

  function DecodeKey(key: string): Path {
    UnescapeAll(SplitKey(key, false))
  }

  function FlatKey(parent: string, key: string): string {
    if parent != "" then parent + "." + Escape(key) else Escape(key)
  }

  // ---------------------------------------------------------------- flatten

  function PutFlat<A>(flat: Flat<A>, key: string, value: A): Flat<A> {
    if flat == [] then [(key, value)]
    else if flat[0].0 == key then [(key, value)] + flat[1..]
    else [flat[0]] + PutFlat(flat[1..], key, value)
  }

  /** `dict(items)`: a repeated key keeps its first place and its last value. */
  function FromItems<A>(items: Flat<A>): Flat<A> {
    if items == [] then []
    else PutFlat(FromItems(items[..|items| - 1]), items[|items| - 1].0, items[|items| - 1].1)
  }

  function Flatten<A>(d: Dict<A>, parent: string): Flat<A>
    decreases d, 1
  {
    FromItems(Pieces(d, parent))
  }

  function Pieces<A>(d: Dict<A>, parent: string): Flat<A>
    decreases d, 0
  {
    match d
    case Empty => []
    case Item(k, v, rest) =>
      var newKey := FlatKey(parent, k);
      Found(v, newKey) + Pieces(rest, parent)
  }

  function Found<A>(v: Value<A>, newKey: string): Flat<A>
    decreases v, 2
  {
    match v case Leaf(a) => [(newKey, a)] case Sub(s) => Flatten(s, newKey)
  }

  method FlattenDict<A>(val: Dict<A>, parent: string := "") returns (flat: Flat<A>)
    ensures flat == Flatten(val, parent)
    decreases val
  {
    var items: Flat<A> := [];
    var todo := val;
    while todo.Item?
      invariant items + Pieces(todo, parent) == Pieces(val, parent)
      invariant todo == val || todo < val
      decreases todo
    {
      var key := Escape(todo.key);
      var newKey := if parent != "" then parent + "." + key else key;
      PiecesStep(items, todo, parent);
      match todo.value {
        case Leaf(a) => items := items + [(newKey, a)];
        case Sub(s) =>
          var nested := FlattenDict(s, newKey);
          items := items + nested;
      }
      todo := todo.rest;
    }
    assert items + [] == items;
    flat := FromItems(items);
  }

  lemma PiecesStep<A>(items: Flat<A>, todo: Dict<A>, parent: string)
    requires todo.Item?
    ensures items + Found(todo.value, FlatKey(parent, todo.key)) + Pieces(todo.rest, parent)
         == items + Pieces(todo, parent)
  {
  }

  // ---------------------------------------------------------------- unflatten

  /** One round of the rebuilding loop: walk down to the last part, then assign. */
  function Insert<A>(d: Dict<A>, path: Path, v: A): Result<Dict<A>>
    decreases |path|, d
  {
    match d
    case Empty => Ok(Item(path[0], Chain(path[1..], v), Empty))
    case Item(k, w, rest) =>
      if k != path[0] then
        match Insert(rest, path, v)
        case Ok(r) => Ok(Item(k, w, r))
        case TypeError => TypeError
      else if |path| == 1 then Ok(Item(k, Leaf(v), rest))
      else
        match w
        case Leaf(_) => TypeError
        case Sub(s) =>
          match Insert(s, path[1..], v)
          case Ok(r) => Ok(Item(k, Sub(r), rest))
          case TypeError => TypeError
  }

  function Chain<A>(path: seq<string>, v: A): Value<A> {
    if path == [] then Leaf(v) else Sub(Item(path[0], Chain(path[1..], v), Empty))
  }

  function InsertAll<A>(d: Dict<A>, leaves: Leaves<A>): Result<Dict<A>>
    decreases |leaves|
  {
    if leaves == [] then Ok(d)
    else
      match Insert(d, leaves[0].0, leaves[0].1)
      case Ok(r) => InsertAll(r, leaves[1..])
      case TypeError => TypeError
  }

  function DecodeAll<A>(flat: Flat<A>): (r: Leaves<A>)
    ensures |r| == |flat|
  {
    if flat == [] then [] else [(DecodeKey(flat[0].0), flat[0].1)] + DecodeAll(flat[1..])
  }

  function Unflatten<A>(flat: Flat<A>): Result<Dict<A>> {
    InsertAll(Empty, DecodeAll(flat))
  }

  method UnflattenDict<A>(flat: Flat<A>) returns (r: Result<Dict<A>>)
    ensures r == Unflatten(flat)
  {
    r := Ok(Empty);
    for i := 0 to |flat|
      invariant match r
                case Ok(d) => InsertAll(d, DecodeAll(flat[i..])) == Unflatten(flat)
                case TypeError => Unflatten(flat) == TypeError
    {
      if r.Ok? {
        assert flat[i..][0] == flat[i] && flat[i..][1..] == flat[i + 1..];
        r := Insert(r.value, DecodeKey(flat[i].0), flat[i].1);
      }
    }
  }
}
