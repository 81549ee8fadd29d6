/** The least-recently-used list of one cache shard as a function of the operations done on it. */
module Lru {
  import opened Bytes

  datatype Option<+T> = None | Some(value: T)

  datatype Entry = Entry(key: string, value: seq<byte>)

  /** Most recently used first, no key twice. */
  type Contents = seq<Entry>

  datatype Op = Put(key: string, value: seq<byte>) | Get(key: string) | Remove(key: string)

  function Size(c: Contents): nat {
    if c == [] then 0 else |c[0].value| + Size(c[1..])
  }

  predicate Has(c: Contents, key: string) {
    exists i | 0 <= i < |c| :: c[i].key == key
  }

  predicate DistinctKeys(c: Contents) {
    forall i, j | 0 <= i < j < |c| :: c[i].key != c[j].key
  }

  function Find(c: Contents, key: string): Option<seq<byte>> {
    if c == [] then None else if c[0].key == key then Some(c[0].value) else Find(c[1..], key)
  }

  function Without(c: Contents, key: string): Contents {
    if c == [] then [] else if c[0].key == key then Without(c[1..], key) else [c[0]] + Without(c[1..], key)
  }

  /** Drop the least recently used entries until the rest fits; a non-positive limit never evicts. */
  function Fit(c: Contents, maxBytes: int): Contents {
    if maxBytes > 0 && Size(c) > maxBytes then Fit(c[..|c| - 1], maxBytes) else c
  }

  function Apply(c: Contents, op: Op, maxBytes: int): Contents {
    match op
    case Put(key, value) => Fit([Entry(key, value)] + Without(c, key), maxBytes)
    case Get(key) => if Find(c, key).Some? then [Entry(key, Find(c, key).value)] + Without(c, key) else c
    case Remove(key) => Without(c, key)
  }

  // ----- Sizes ---------------------------------------------------------------------------------------------

  lemma {:induction false} SizeSplit(c: Contents, d: Contents)
    ensures Size(c + d) == Size(c) + Size(d)
  {
    if c == [] {
      assert c + d == d;
    } else {
      assert (c + d)[1..] == c[1..] + d;
      SizeSplit(c[1..], d);
    }
  }

  /** What survives is the longest most-recently-used prefix that fits. */
  lemma {:induction false} FitIsLongestPrefix(c: Contents, maxBytes: int)
    ensures Fit(c, maxBytes) <= c
    ensures maxBytes > 0 ==> Size(Fit(c, maxBytes)) <= maxBytes
    ensures forall n: nat | |Fit(c, maxBytes)| < n <= |c| :: maxBytes > 0 && Size(c[..n]) > maxBytes
    decreases |c|
  {
    if maxBytes > 0 && Size(c) > maxBytes {
      var d := c[..|c| - 1];
      FitIsLongestPrefix(d, maxBytes);
      forall n: nat | |Fit(c, maxBytes)| < n <= |c| ensures Size(c[..n]) > maxBytes {
        if n < |c| {
          assert d[..n] == c[..n];
        } else {
          assert c[..n] == c;
        }
      }
    }
  }

  // ----- Members -------------------------------------------------------------------------------------------

  lemma {:induction false} FindExactly(c: Contents, key: string)
    ensures Find(c, key).Some? <==> Has(c, key)
    ensures DistinctKeys(c) ==> forall i | 0 <= i < |c| && c[i].key == key :: Find(c, key) == Some(c[i].value)
  {
    if c != [] {
      FindExactly(c[1..], key);
      if Has(c, key) && c[0].key != key {
        var i :| 0 <= i < |c| && c[i].key == key;
        assert c[1..][i - 1].key == key;
      }
    }
  }

  lemma {:induction false} WithoutFinds(c: Contents, key: string, other: string)
    ensures Find(Without(c, key), other) == if other == key then None else Find(c, other)
  {
    if c != [] {
      WithoutFinds(c[1..], key, other);
    }
  }

  lemma {:induction false} WithoutKeys(c: Contents, key: string)
    ensures forall e | e in Without(c, key) :: e in c && e.key != key
    ensures DistinctKeys(c) ==> DistinctKeys(Without(c, key))
    ensures Size(Without(c, key)) <= Size(c)
  {
    if c != [] {
      WithoutKeys(c[1..], key);
      if DistinctKeys(c) {
        FrontStaysDistinct(c, Without(c[1..], key));
      }
    }
  }

  lemma FrontStaysDistinct(c: Contents, rest: Contents)
    requires c != [] && DistinctKeys(c) && DistinctKeys(rest) && forall e | e in rest :: e in c[1..]
    ensures DistinctKeys([c[0]] + rest)
  {
    forall i | 0 <= i < |rest| ensures rest[i].key != c[0].key {
      assert rest[i] in c[1..];
    }
  }

  /** Taking out the one entry at place `i`. */
  lemma {:induction false} WithoutAt(c: Contents, i: nat)
    requires DistinctKeys(c) && i < |c|
    ensures Without(c, c[i].key) == c[..i] + c[i + 1..]
    ensures Size(c) == |c[i].value| + Size(Without(c, c[i].key))
  {
    hide DistinctKeys, Has, Find;
    TailDistinct(c);
    if i == 0 {
      WithoutAbsent(c[1..], c[0].key);
    } else {
      OtherKey(c, i);
      WithoutAt(c[1..], i - 1);
      CutTail(c, i);
    }
  }

  lemma TailDistinct(c: Contents)
    requires DistinctKeys(c) && c != []
    ensures DistinctKeys(c[1..]) && !Has(c[1..], c[0].key)
  {
  }

  lemma OtherKey(c: Contents, i: nat)
    requires DistinctKeys(c) && 0 < i < |c|
    ensures c[0].key != c[i].key
  {
  }

  lemma CutTail(c: Contents, i: nat)
    requires 0 < i < |c|
    ensures [c[0]] + (c[1..][..i - 1] + c[1..][i..]) == c[..i] + c[i + 1..]
  {
  }

  lemma {:induction false} WithoutAbsent(c: Contents, key: string)
    requires !Has(c, key)
    ensures Without(c, key) == c
  {
    if c != [] {
      assert c[0].key != key;
      assert forall i | 0 <= i < |c| - 1 :: c[1..][i] == c[i + 1];
      WithoutAbsent(c[1..], key);
    }
  }

  /** A prefix finds what the whole list finds, or nothing. */
  lemma {:induction false} PrefixFinds(c: Contents, n: nat, key: string)
    requires n <= |c|
    ensures Find(c[..n], key).Some? ==> Find(c[..n], key) == Find(c, key)
  {
    if n > 0 {
      assert c[..n][1..] == c[1..][..n - 1];
      PrefixFinds(c[1..], n - 1, key);
    }
  }

  // ----- Runs ----------------------------------------------------------------------------------------------

  function After(ops: seq<Op>, maxBytes: int): Contents {
    if ops == [] then [] else Apply(After(ops[..|ops| - 1], maxBytes), ops[|ops| - 1], maxBytes)
  }

  /** The value of the last put of `key` that no later remove undid. */
  function LatestPut(ops: seq<Op>, key: string): Option<seq<byte>> {
    if ops == [] then None
    else
      var op := ops[|ops| - 1];
      if op.Put? && op.key == key then Some(op.value)
      else if op.Remove? && op.key == key then None
      else LatestPut(ops[..|ops| - 1], key)
  }

  /** Finding after moving or putting `key` at the front. */
  lemma FrontFinds(c: Contents, key: string, value: seq<byte>, other: string)
    ensures Find([Entry(key, value)] + Without(c, key), other) == if other == key then Some(value) else Find(c, other)
  {
    WithoutFinds(c, key, other);
    assert ([Entry(key, value)] + Without(c, key))[1..] == Without(c, key);
  }

  lemma ApplyFinds(c: Contents, op: Op, maxBytes: int, key: string)
    ensures var found := Find(Apply(c, op, maxBytes), key);
      var wanted := if op.Put? && op.key == key then Some(op.value)
                    else if op.Remove? && op.key == key then None else Find(c, key);
      found == wanted || (found.None? && op.Put? && maxBytes > 0)
  {
    hide Find, Without, Fit;
    match op
    case Put(k, value) =>
      var full := [Entry(k, value)] + Without(c, k);
      FrontFinds(c, k, value, key);
      FitIsLongestPrefix(full, maxBytes);
      assert Fit(full, maxBytes) == full[..|Fit(full, maxBytes)|];
      PrefixFinds(full, |Fit(full, maxBytes)|, key);
      if maxBytes <= 0 {
        FitUnlimited(full, maxBytes);
      }
    case Get(k) =>
      if Find(c, k).Some? {
        FrontFinds(c, k, Find(c, k).value, key);
      }
    case Remove(k) =>
      WithoutFinds(c, k, key);
  }

  lemma FitUnlimited(c: Contents, maxBytes: int)
    requires maxBytes <= 0
    ensures Fit(c, maxBytes) == c
  {
  }

  /** After any operations a hit returns the latest value put and not removed; without a limit every such
      value is a hit. */
  lemma {:induction false} HitsAreLatest(ops: seq<Op>, maxBytes: int, key: string)
    ensures Find(After(ops, maxBytes), key).Some? ==> Find(After(ops, maxBytes), key) == LatestPut(ops, key)
    ensures maxBytes <= 0 ==> Find(After(ops, maxBytes), key) == LatestPut(ops, key)
    decreases |ops|
  {
    if ops != [] {
      HitsAreLatest(ops[..|ops| - 1], maxBytes, key);
      ApplyFinds(After(ops[..|ops| - 1], maxBytes), ops[|ops| - 1], maxBytes, key);
    }
  }

  lemma FrontKeeps(c: Contents, key: string, value: seq<byte>)
    requires DistinctKeys(c)
    ensures var full := [Entry(key, value)] + Without(c, key);
      DistinctKeys(full) && Size(full) == |value| + Size(Without(c, key))
  {
    WithoutKeys(c, key);
    var full := [Entry(key, value)] + Without(c, key);
    assert forall i | 0 <= i < |Without(c, key)| :: Without(c, key)[i] in Without(c, key);
    assert full[1..] == Without(c, key);
  }

  lemma TouchKeepsSize(c: Contents, key: string)
    requires DistinctKeys(c) && Find(c, key).Some?
    ensures Size([Entry(key, Find(c, key).value)] + Without(c, key)) == Size(c)
  {
    FindExactly(c, key);
    var i :| 0 <= i < |c| && c[i].key == key;
    WithoutAt(c, i);
    FrontKeeps(c, key, c[i].value);
  }

  lemma ApplyKeeps(c: Contents, op: Op, maxBytes: int)
    requires DistinctKeys(c) && (maxBytes > 0 ==> Size(c) <= maxBytes)
    ensures var d := Apply(c, op, maxBytes); DistinctKeys(d) && (maxBytes > 0 ==> Size(d) <= maxBytes)
  {
    hide Find, Without, Fit, Size, DistinctKeys;
    match op
    case Put(k, value) =>
      FrontKeeps(c, k, value);
      FitKeeps([Entry(k, value)] + Without(c, k), maxBytes);
    case Get(k) =>
      if Find(c, k).Some? {
        FrontKeeps(c, k, Find(c, k).value);
        TouchKeepsSize(c, k);
      }
    case Remove(k) =>
      WithoutKeys(c, k);
  }

  lemma FitKeeps(c: Contents, maxBytes: int)
    requires DistinctKeys(c)
    ensures DistinctKeys(Fit(c, maxBytes)) && (maxBytes > 0 ==> Size(Fit(c, maxBytes)) <= maxBytes)
  {
    FitIsLongestPrefix(c, maxBytes);
  }

  lemma {:induction false} AfterGood(ops: seq<Op>, maxBytes: int)
    ensures DistinctKeys(After(ops, maxBytes))
    ensures maxBytes > 0 ==> Size(After(ops, maxBytes)) <= maxBytes
    decreases |ops|
  {
    if ops != [] {
      AfterGood(ops[..|ops| - 1], maxBytes);
      ApplyKeeps(After(ops[..|ops| - 1], maxBytes), ops[|ops| - 1], maxBytes);
    }
  }

  // ----- Recency -------------------------------------------------------------------------------------------

  /** The number of the last operation that put or asked for the key, counted from 1. */
  function LastUse(ops: seq<Op>, key: string): nat {
    if ops == [] then 0
    else if ops[|ops| - 1].key == key && !ops[|ops| - 1].Remove? then |ops|
    else LastUse(ops[..|ops| - 1], key)
  }

  /** Every entry was used later than the ones behind it. */
  ghost predicate ByUse(c: Contents, ops: seq<Op>) {
    forall i, j | 0 <= i < j < |c| :: LastUse(ops, c[i].key) > LastUse(ops, c[j].key)
  }

  lemma {:induction false} LastUseBounds(ops: seq<Op>, key: string)
    ensures LastUse(ops, key) <= |ops|
  {
    if ops != [] {
      LastUseBounds(ops[..|ops| - 1], key);
    }
  }

  /** An operation leaves the use of other keys as it is. */
  lemma OtherUse(ops: seq<Op>, op: Op, key: string)
    ensures LastUse(ops + [op], key) == if op.key == key && !op.Remove? then |ops| + 1 else LastUse(ops, key)
  {
    assert (ops + [op])[..|ops|] == ops;
  }

  lemma {:induction false} WithoutByUse(c: Contents, key: string, ops: seq<Op>)
    requires ByUse(c, ops)
    ensures ByUse(Without(c, key), ops)
  {
    if c != [] {
      WithoutByUse(c[1..], key, ops);
      if c[0].key != key {
        var rest := Without(c[1..], key);
        WithoutKeys(c[1..], key);
        forall j | 0 <= j < |rest| ensures LastUse(ops, c[0].key) > LastUse(ops, rest[j].key) {
          assert rest[j] in c[1..];
        }
      }
    }
  }

  lemma SameUse(c: Contents, ops: seq<Op>, op: Op)
    requires ByUse(c, ops) && (op.Remove? || forall e | e in c :: e.key != op.key)
    ensures ByUse(c, ops + [op])
  {
    forall e | e in c ensures LastUse(ops + [op], e.key) == LastUse(ops, e.key) {
      OtherUse(ops, op, e.key);
    }
  }

  lemma FrontByUse(c: Contents, ops: seq<Op>, op: Op, value: seq<byte>)
    requires ByUse(c, ops) && !op.Remove?
    ensures ByUse([Entry(op.key, value)] + Without(c, op.key), ops + [op])
  {
    hide Without, LastUse;
    var rest := Without(c, op.key);
    WithoutKeys(c, op.key);
    WithoutByUse(c, op.key, ops);
    SameUse(rest, ops, op);
    OtherUse(ops, op, op.key);
    forall j | 0 <= j < |rest| ensures LastUse(ops + [op], rest[j].key) < |ops| + 1 {
      assert rest[j] in rest;
      OtherUse(ops, op, rest[j].key);
      LastUseBounds(ops, rest[j].key);
    }
  }

  /** The list is in the order of last use, a get that misses included: whatever was put or asked for later
      stands before whatever was put or asked for earlier. */
  lemma {:induction false} OrderedByUse(ops: seq<Op>, maxBytes: int)
    ensures ByUse(After(ops, maxBytes), ops)
    decreases |ops|
  {
    hide Without, LastUse, Fit, Find;
    if ops != [] {
      var front, op := ops[..|ops| - 1], ops[|ops| - 1];
      var c := After(front, maxBytes);
      assert ops == front + [op];
      OrderedByUse(front, maxBytes);
      match op
      case Put(key, value) =>
        FrontByUse(c, front, op, value);
        FitIsLongestPrefix([Entry(key, value)] + Without(c, key), maxBytes);
      case Get(key) =>
        if Find(c, key).Some? {
          FrontByUse(c, front, op, Find(c, key).value);
        } else {
          FindExactly(c, key);
          SameUse(c, front, op);
        }
      case Remove(key) =>
        WithoutByUse(c, key, front);
        SameUse(Without(c, key), front, op);
    }
  }

  /** A put evicts what was used longest ago: every key it drops was used before every key it keeps. */
  lemma EvictsOldest(ops: seq<Op>, key: string, value: seq<byte>, maxBytes: int, gone: string, kept: string)
    requires gone == key || Has(After(ops, maxBytes), gone)
    requires var after := After(ops + [Put(key, value)], maxBytes); !Has(after, gone) && Has(after, kept)
    ensures LastUse(ops + [Put(key, value)], gone) < LastUse(ops + [Put(key, value)], kept)
    ensures maxBytes > 0
  {
    hide Without, LastUse, Fit;
    var c, op := After(ops, maxBytes), Put(key, value);
    var full := [Entry(key, value)] + Without(c, key);
    assert (ops + [op])[..|ops|] == ops;
    OrderedByUse(ops, maxBytes);
    FrontByUse(c, ops, op, value);
    FitIsLongestPrefix(full, maxBytes);
    FullHas(c, key, value, gone);
    var n := |Fit(full, maxBytes)|;
    var i :| 0 <= i < |full| && full[i].key == gone;
    var j :| 0 <= j < n && Fit(full, maxBytes)[j].key == kept;
    assert i >= n && full[j].key == kept;
    assert full[..|full|] == full;
  }

  lemma FullHas(c: Contents, key: string, value: seq<byte>, other: string)
    requires other == key || Has(c, other)
    ensures Has([Entry(key, value)] + Without(c, key), other)
  {
    hide Without, Has, Find;
    var full := [Entry(key, value)] + Without(c, key);
    FindExactly(c, other);
    FindExactly(full, other);
    FrontFinds(c, key, value, other);
  }

  // ----- The sharded cache ---------------------------------------------------------------------------------

  const SHARDS: nat := 32

  /** Each shard's limit. Go divides toward zero. */
  function PerShard(maxBytes: int): int {
    var share := if maxBytes >= 0 then maxBytes / SHARDS else -(-maxBytes / SHARDS);
    if maxBytes > 0 && share < 1 then 1 else share
  }

  /** The shards share a positive limit evenly, as far as whole bytes go, and each has at least one byte. */
  lemma ShareExactly(maxBytes: int)
    requires maxBytes > 0
    ensures PerShard(maxBytes) >= 1
    ensures maxBytes >= SHARDS ==> SHARDS * PerShard(maxBytes) <= maxBytes < SHARDS * (PerShard(maxBytes) + 1)
    ensures maxBytes < SHARDS ==> PerShard(maxBytes) == 1
  {
  }

  /** The operations that reach shard `i` when `shardOf` picks the shard of a key. */
  function Routed(ops: seq<Op>, shardOf: string -> nat, i: nat): seq<Op> {
    if ops == [] then []
    else Routed(ops[..|ops| - 1], shardOf, i) +
         (if shardOf(ops[|ops| - 1].key) % SHARDS == i then [ops[|ops| - 1]] else [])
  }

  function ShardAfter(ops: seq<Op>, shardOf: string -> nat, maxBytes: int, i: nat): Contents {
    After(Routed(ops, shardOf, i), PerShard(maxBytes))
  }

  /** The bytes held by the first `n` shards. */
  function HeldBytes(ops: seq<Op>, shardOf: string -> nat, maxBytes: int, n: nat): nat {
    if n == 0 then 0
    else HeldBytes(ops, shardOf, maxBytes, n - 1) + Size(ShardAfter(ops, shardOf, maxBytes, n - 1))
  }

  lemma {:induction false} HeldWithin(ops: seq<Op>, shardOf: string -> nat, maxBytes: int, n: nat)
    requires maxBytes > 0
    ensures HeldBytes(ops, shardOf, maxBytes, n) <= n * PerShard(maxBytes)
  {
    if n > 0 {
      HeldWithin(ops, shardOf, maxBytes, n - 1);
      AfterGood(Routed(ops, shardOf, n - 1), PerShard(maxBytes));
      assert n * PerShard(maxBytes) == (n - 1) * PerShard(maxBytes) + PerShard(maxBytes);
    }
  }

  /** However the keys hash, the 32 shards together hold at most the limit, or 32 bytes if that is more. */
  lemma TotalWithin(ops: seq<Op>, shardOf: string -> nat, maxBytes: int)
    requires maxBytes > 0
    ensures HeldBytes(ops, shardOf, maxBytes, SHARDS) <= if maxBytes < SHARDS then SHARDS else maxBytes
  {
    HeldWithin(ops, shardOf, maxBytes, SHARDS);
  }

  lemma {:induction false} RoutedLatest(ops: seq<Op>, shardOf: string -> nat, key: string)
    ensures LatestPut(Routed(ops, shardOf, shardOf(key) % SHARDS), key) == LatestPut(ops, key)
    decreases |ops|
  {
    if ops != [] {
      var n := |ops| - 1;
      var i := shardOf(key) % SHARDS;
      RoutedLatest(ops[..n], shardOf, key);
      if shardOf(ops[n].key) % SHARDS == i {
        var routed := Routed(ops, shardOf, i);
        assert routed[..|routed| - 1] == Routed(ops[..n], shardOf, i);
      } else {
        assert Routed(ops, shardOf, i) == Routed(ops[..n], shardOf, i);
      }
    }
  }

  /** A shard is unlimited exactly when the cache is. */
  lemma ShareSign(maxBytes: int)
    ensures PerShard(maxBytes) <= 0 <==> maxBytes <= 0
  {
  }

  /** A hit anywhere in the cache returns the latest value put under the key and not removed. */
  lemma CacheHitsAreLatest(ops: seq<Op>, shardOf: string -> nat, maxBytes: int, key: string)
    ensures var found := Find(ShardAfter(ops, shardOf, maxBytes, shardOf(key) % SHARDS), key);
      (found.Some? || maxBytes <= 0) ==> found == LatestPut(ops, key)
  {
    hide Find, After, LatestPut, Routed, PerShard;
    RoutedLatest(ops, shardOf, key);
    ShareSign(maxBytes);
    HitsAreLatest(Routed(ops, shardOf, shardOf(key) % SHARDS), PerShard(maxBytes), key);
  }
}
