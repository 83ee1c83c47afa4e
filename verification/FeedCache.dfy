/** The cache of rendered feeds, which purges what has expired. */
module FeedCache {
  import opened Wrappers

  type Key = string
  type Item = seq<bv8>
  type Time = int

  /** How long an entry is good for, and how long to wait between purges. */
  datatype Config = Config(delta: int, clearTimeout: int)
  datatype Cache = Cache(table: map<Key, (Time, Item)>, cleared: Time)

  datatype Op = Put(now: Time, key: Key, item: Item) | Get(now: Time, key: Key) | Clean(now: Time)

  predicate Good(table: map<Key, (Time, Item)>, key: Key, now: Time, c: Config) {
    key in table && table[key].0 > now - c.delta
  }

  function Lookup(table: map<Key, (Time, Item)>, key: Key, now: Time, c: Config): Option<Item> {
    if Good(table, key, now, c) then Some(table[key].1) else None
  }

  function Cleaned(cache: Cache, now: Time, c: Config): Cache {
    Cache(map k | k in cache.table && cache.table[k].0 >= now - c.delta :: cache.table[k], now)
  }

  function MaybeCleaned(cache: Cache, now: Time, c: Config): Cache {
    if now - cache.cleared > c.clearTimeout then Cleaned(cache, now, c) else cache
  }

  function After(cache: Cache, op: Op, c: Config): Cache {
    match op
    case Put(now, key, item) => cache.(table := cache.table[key := (now, item)])
    case Get(now, _) => MaybeCleaned(cache, now, c)
    case Clean(now) => Cleaned(cache, now, c)
  }

  /** What the lookups of a run return. */
  function Answers(cache: Cache, ops: seq<Op>, c: Config): seq<Option<Item>>
    decreases |ops|
  {
    if ops == [] then []
    else
      var next := After(cache, ops[0], c);
      (if ops[0].Get? then [Lookup(next.table, ops[0].key, ops[0].now, c)] else [])
      + Answers(next, ops[1..], c)
  }

  /** The same for a table that is only ever added to. */
  function PlainAnswers(table: map<Key, (Time, Item)>, ops: seq<Op>, c: Config): seq<Option<Item>>
    decreases |ops|
  {
    if ops == [] then []
    else
      var next := if ops[0].Put? then table[ops[0].key := (ops[0].now, ops[0].item)] else table;
      (if ops[0].Get? then [Lookup(next, ops[0].key, ops[0].now, c)] else [])
      + PlainAnswers(next, ops[1..], c)
  }

  ghost predicate NonDecreasing(ops: seq<Op>, start: Time) {
    && (forall i :: 0 <= i < |ops| ==> start <= ops[i].now)
    && (forall i, j :: 0 <= i < j < |ops| ==> ops[i].now <= ops[j].now)
  }

  /** Nothing is missing from the cache but what has expired by `now`. */
  ghost predicate Covers(cache: Cache, all: map<Key, (Time, Item)>, now: Time, c: Config) {
    && (forall k :: k in cache.table ==> k in all && all[k] == cache.table[k])
    && (forall k :: k in all && k !in cache.table ==> all[k].0 <= now - c.delta)
  }

  /** As long as the clock does not go back, purging cannot be observed. */
  lemma {:induction false} PurgingUnseen(
    cache: Cache, all: map<Key, (Time, Item)>, ops: seq<Op>, now: Time, c: Config)
    requires NonDecreasing(ops, now) && Covers(cache, all, now, c)
    ensures Answers(cache, ops, c) == PlainAnswers(all, ops, c)
    decreases |ops|
  {
    if ops != [] {
      var op, next := ops[0], After(cache, ops[0], c);
      var more := if op.Put? then all[op.key := (op.now, op.item)] else all;
      assert Covers(next, more, op.now, c);
      assert forall i :: 0 <= i < |ops| - 1 ==> ops[1..][i] == ops[i + 1];
      PurgingUnseen(next, more, ops[1..], op.now, c);
      if op.Get? {
        assert Lookup(next.table, op.key, op.now, c) == Lookup(more, op.key, op.now, c);
      }
    }
  }

  /** With a clock that is set back it can: the purged entry would have been good again. */
  lemma SeenAfterSetBack()
    ensures var ops := [Put(0, "feed", [1]), Clean(100), Get(30, "feed")];
            Answers(Cache(map[], 0), ops, Config(60, 1000)) != PlainAnswers(map[], ops, Config(60, 1000))
  {
    var c := Config(60, 1000);
    var ops := [Put(0, "feed", [1]), Clean(100), Get(30, "feed")];
    var stored := After(Cache(map[], 0), ops[0], c);
    var purged := After(stored, ops[1], c);
    assert purged.table == map[];
    assert ops[1..] == [ops[1], ops[2]] && ops[1..][1..] == [ops[2]];
    assert Answers(purged, [ops[2]], c) == [None];
    assert PlainAnswers(stored.table, [ops[2]], c) == [Some([1])];
    assert Answers(stored, ops[1..], c) == [None];
    assert PlainAnswers(stored.table, ops[1..], c) == [Some([1])];
  }

  /** What a lookup leaves in the table: all of it, until the last purge is longer ago than the time
      to wait; then what is not older than `delta`. */
  lemma LookupLeaves(cache: Cache, now: Time, key: Key, c: Config, k: Key)
    ensures var after, due := After(cache, Get(now, key), c), now > cache.cleared + c.clearTimeout;
            && after.cleared == (if due then now else cache.cleared)
            && (k in after.table <==> k in cache.table && (due ==> now <= cache.table[k].0 + c.delta))
            && (k in after.table ==> after.table[k] == cache.table[k])
  {
  }

  function AfterAll(cache: Cache, ops: seq<Op>, c: Config): Cache {
    if ops == [] then cache else After(AfterAll(cache, ops[..|ops| - 1], c), ops[|ops| - 1], c)
  }

  function NotNegative(n: int): nat {
    if n < 0 then 0 else n
  }

  /** Nothing in the table was expired at the last purge. */
  predicate Recent(cache: Cache, now: Time, c: Config) {
    cache.cleared <= now && forall k :: k in cache.table ==> cache.cleared - NotNegative(c.delta) <= cache.table[k].0
  }

  lemma {:induction false} StaysRecent(cache: Cache, ops: seq<Op>, now: Time, c: Config)
    requires NonDecreasing(ops, now) && Recent(cache, now, c)
    ensures Recent(AfterAll(cache, ops, c), if ops == [] then now else ops[|ops| - 1].now, c)
    decreases |ops|
  {
    if ops != [] {
      var n := |ops| - 1;
      StaysRecent(cache, ops[..n], now, c);
      assert ops[..n] != [] ==> ops[..n][n - 1] == ops[n - 1];
    }
  }

  /** After any lookup, the table holds nothing that has been expired for longer than the time to
      wait between purges. */
  lemma TableBounded(cache: Cache, ops: seq<Op>, now: Time, c: Config, k: Key)
    requires NonDecreasing(ops, now) && Recent(cache, now, c)
    requires ops != [] && ops[|ops| - 1].Get? && k in AfterAll(cache, ops, c).table
    ensures ops[|ops| - 1].now - AfterAll(cache, ops, c).table[k].0 <=
            NotNegative(c.delta) + NotNegative(c.clearTimeout)
  {
    StaysRecent(cache, ops, now, c);
    var n := |ops| - 1;
    LookupLeaves(AfterAll(cache, ops[..n], c), ops[n].now, ops[n].key, c, k);
  }

  lemma PurgedIs(table: map<Key, (Time, Item)>, keys: set<Key>, before: Time)
    requires keys == set k | k in table && table[k].0 < before
    ensures (map k | k in table && k !in keys :: table[k]) == map k | k in table && table[k].0 >= before :: table[k]
  {
  }

  class RssFeedCache {
    const config: Config
    var table: map<Key, (Time, Item)>
    var cleared: Time
    /** Everything ever added, newest for each key, and the time of the last call. */
    ghost var all: map<Key, (Time, Item)>
    ghost var clock: Time

    ghost function View(): Cache
      reads this
    {
      Cache(table, cleared)
    }

    ghost predicate Valid()
      reads this
    {
      Covers(View(), all, clock, config)
    }

    constructor (config: Config, now: Time)
      ensures Valid() && this.config == config && View() == Cache(map[], now) && all == map[] && clock == now
    {
      this.config, table, cleared, all, clock := config, map[], now, map[], now;
    }

    method CleanCache(now: Time)
      requires Valid() && clock <= now
      modifies this
      ensures Valid() && View() == Cleaned(old(View()), now, config)
      ensures all == old(all) && clock == now
    {
      var keysToPurge: set<Key> := {};
      var purgeBefore := now - config.delta;
      cleared := now;
      var todo := table.Keys;
      while todo != {}
        invariant todo <= table.Keys
        invariant keysToPurge == set k | k in table && k !in todo && table[k].0 < purgeBefore
        invariant table == old(table) && cleared == now && all == old(all) && clock == old(clock)
        decreases |todo|
      {
        var key: Key :| key in todo;
        if table[key].0 < purgeBefore {
          keysToPurge := keysToPurge + {key};
        }
        todo := todo - {key};
      }
      PurgedIs(table, keysToPurge, purgeBefore);
      table := map k | k in table && k !in keysToPurge :: table[k];
      clock := now;
    }

    /** The answer is the never-purged table's, and so no entry of age `delta` or more. */
    method GetValidCachedItem(key: Key, now: Time) returns (item: Option<Item>)
      requires Valid() && clock <= now
      modifies this
      ensures Valid() && View() == After(old(View()), Get(now, key), config)
      ensures all == old(all) && clock == now
      ensures item == Lookup(all, key, now, config)
      ensures item.Some? ==> key in all && now - all[key].0 < config.delta
    {
      if now - cleared > config.clearTimeout {
        CleanCache(now);
      }
      clock := now;
      if key in table && table[key].0 > now - config.delta {
        return Some(table[key].1);
      }
      return None;
    }

    method AddToCache(key: Key, item: Item, now: Time)
      requires Valid() && clock <= now
      modifies this
      ensures Valid() && View() == After(old(View()), Put(now, key, item), config)
      ensures all == old(all)[key := (now, item)] && clock == now
    {
      table := table[key := (now, item)];
      all, clock := all[key := (now, item)], now;
    }
  }
}
