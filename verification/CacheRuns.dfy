/**
 What a whole run of the authentication cache guarantees.  The state is the recency sequence that the
 data structure of module `AuthCache` was proved to maintain.
 */
module CacheRuns {
  import opened Wrappers
  import opened AuthCache

  datatype Config = Config(max: nat, ttl: nat, negTtl: nat)

  datatype Op =
    | Put(entry: Entry)
    | Get(key: string, now: int)
    | Del(key: string)
    | Flush
    | FlushUsers(users: seq<string>)

  /** Every entry that is ever inserted fits into the cache. */
  predicate Fits(ops: seq<Op>, c: Config) {
    forall op :: op in ops && op.Put? ==> op.entry.size <= c.max
  }

  /** Negative entries are refused when their TTL is zero. */
  predicate Accepted(op: Op, c: Config) {
    op.Put? && (op.entry.value != "" || c.negTtl > 0)
  }

  function Apply(s: seq<Entry>, op: Op, c: Config): seq<Entry>
    requires Total(s) <= c.max
  {
    match op
    case Put(e) => if Accepted(op, c) then Inserted(s, c.max, e) else s
    case Get(k, now) => LookedUp(s, k, c.ttl, c.negTtl, now)
    case Del(k) => Remove(s, k)
    case Flush => []
    case FlushUsers(users) => OfOthers(s, users)
  }

  /** The state after a run; the accounting never exceeds the maximum and no key is there twice. */
  function Run(ops: seq<Op>, c: Config): (s: seq<Entry>)
    requires Fits(ops, c)
    ensures Total(s) <= c.max && UniqueKeys(s)
  {
    if ops == [] then []
    else
      var before := Run(ops[..|ops| - 1], c);
      var op := ops[|ops| - 1];
      assert op in ops;
      ApplyKeeps(before, op, c);
      Apply(before, op, c)
  }

  lemma ApplyKeeps(s: seq<Entry>, op: Op, c: Config)
    requires Total(s) <= c.max && UniqueKeys(s) && (op.Put? ==> op.entry.size <= c.max)
    ensures Total(Apply(s, op, c)) <= c.max && UniqueKeys(Apply(s, op, c))
  {
    var f := (k: string) => 0;
    match op {
      case Put(e) =>
        InsertKeeps(s, c.max, e, f);
      case Get(k, now) =>
        if Find(s, k).Some? {
          MoveKeeps(s, k, f);
        }
      case Del(k) =>
        RemoveThins(s, k);
        ThinnedFacts(Remove(s, k), s, f);
      case Flush =>
      case FlushUsers(users) =>
        OthersThin(s, users);
        ThinnedFacts(OfOthers(s, users), s, f);
    }
  }

  /** Moving an entry to the end changes neither the total nor the order of the others. */
  lemma MoveKeeps(s: seq<Entry>, k: string, f: string -> int)
    requires UniqueKeys(s) && Find(s, k).Some?
    ensures var moved := Remove(s, k) + [Find(s, k).value];
            && Total(moved) == Total(s) && UniqueKeys(moved)
            && (Ordered(s, f) ==> Ordered(Remove(s, k), f))
  {
    hide UniqueKeys, Ordered, Thinned, Remove, Find, Total;
    var e := Find(s, k).value;
    var i :| 0 <= i < |s| && s[i] == e;
    RemoveIsWithout(s, i);
    RemoveThins(s, k);
    ThinnedFacts(Remove(s, k), s, f);
    Snoc(Remove(s, k), e);
  }

  lemma Snoc(s: seq<Entry>, e: Entry)
    requires UniqueKeys(s) && forall x :: x in s ==> x.key != e.key
    ensures UniqueKeys(s + [e]) && Total(s + [e]) == Total(s) + e.size
  {
    TotalAppend(s, [e]);
    assert Total([e]) == e.size;
  }

  // ------------------------------------------------------------ order and size

  /** The keys come in increasing order of `f`. */
  ghost predicate Ordered(s: seq<Entry>, f: string -> int) {
    forall i, j :: 0 <= i < j < |s| ==> f(s[i].key) < f(s[j].key)
  }

  /** `t` is `s` with some entries left out. */
  ghost predicate Thinned(t: seq<Entry>, s: seq<Entry>) {
    t == [] || (s != [] && var n, m := |t| - 1, |s| - 1;
                           (t[n] == s[m] && Thinned(t[..n], s[..m])) || Thinned(t, s[..m]))
  }

  lemma {:induction false} ThinnedFacts(t: seq<Entry>, s: seq<Entry>, f: string -> int)
    requires Thinned(t, s)
    ensures Total(t) <= Total(s)
    ensures forall e :: e in t ==> e in s
    ensures UniqueKeys(s) ==> UniqueKeys(t)
    ensures Ordered(s, f) ==> Ordered(t, f)
  {
    hide UniqueKeys, Ordered, Total;
    if t != [] {
      var n, m := |t| - 1, |s| - 1;
      TotalAppend(s[..m], [s[m]]);
      assert s == s[..m] + [s[m]];
      if t[n] == s[m] && Thinned(t[..n], s[..m]) {
        TotalAppend(t[..n], [t[n]]);
        assert t == t[..n] + [t[n]];
        ThinnedFacts(t[..n], s[..m], f);
        LastKept(t[..n], s[..m], s[m], f);
      } else {
        ThinnedFacts(t, s[..m], f);
        LastKept([], s[..m], s[m], f);
      }
    } else {
      hide Thinned;
      NothingLeft(s, f);
    }
  }

  lemma NothingLeft(s: seq<Entry>, f: string -> int)
    ensures Total([]) == 0 <= Total(s) && UniqueKeys([]) && Ordered([], f)
  {
  }

  lemma LastKept(t: seq<Entry>, s: seq<Entry>, e: Entry, f: string -> int)
    requires forall x :: x in t ==> x in s
    ensures UniqueKeys(s + [e]) ==> UniqueKeys(s) && (UniqueKeys(t) ==> UniqueKeys(t + [e]))
    ensures Ordered(s + [e], f) ==> Ordered(s, f) && (Ordered(t, f) ==> Ordered(t + [e], f))
  {
    var all := s + [e];
    assert all[|s|] == e && forall i :: 0 <= i < |s| ==> all[i] == s[i];
    forall x | x in t
      ensures (UniqueKeys(all) ==> x.key != e.key) && (Ordered(all, f) ==> f(x.key) < f(e.key))
    {
      var i :| 0 <= i < |s| && s[i] == x;
      assert all[i] == x;
    }
  }

  lemma {:induction false} RemoveThins(s: seq<Entry>, key: string)
    ensures Thinned(Remove(s, key), s)
  {
    if s != [] {
      var m := |s| - 1;
      assert s == s[..m] + [s[m]];
      RemoveAppend(s[..m], [s[m]], key);
      RemoveThins(s[..m], key);
      var r := Remove(s, key);
      if s[m].key != key {
        assert r[..|r| - 1] == Remove(s[..m], key);
      } else {
        assert r == Remove(s[..m], key);
      }
    }
  }

  lemma {:induction false} OthersThin(s: seq<Entry>, users: seq<string>)
    ensures Thinned(OfOthers(s, users), s)
  {
    if s != [] {
      var m := |s| - 1;
      OthersThin(s[..m], users);
      var r := OfOthers(s, users);
      if IsAnyUser(s[m].key, users) {
        assert r == OfOthers(s[..m], users);
      } else {
        assert r[..|r| - 1] == OfOthers(s[..m], users);
      }
    }
  }

  lemma {:induction false} SuffixThins(s: seq<Entry>, n: nat)
    requires n <= |s|
    ensures Thinned(s[n..], s)
  {
    if n < |s| {
      SuffixThins(s[..|s| - 1], n);
      assert s[..|s| - 1][n..] == s[n..][..|s| - 1 - n];
    }
  }

  /** How many of the oldest entries an insertion throws out. */
  function Evicted(s: seq<Entry>, left: nat, need: nat): (n: nat)
    ensures n <= |s|
  {
    if left >= need || s == [] then 0 else 1 + Evicted(s[1..], left + s[0].size, need)
  }

  /** It is the shortest run of them that makes enough room. */
  lemma {:induction false} EvictsShortest(s: seq<Entry>, left: nat, need: nat)
    ensures var n := Evicted(s, left, need);
            && Evict(s, left, need) == s[n..]
            && (left + Total(s[..n]) >= need || n == |s|)
            && forall m :: 0 <= m < n ==> left + Total(s[..m]) < need
  {
    if left < need && s != [] {
      EvictsShortest(s[1..], left + s[0].size, need);
      var n := Evicted(s, left, need);
      assert s[n..] == s[1..][n - 1..];
      forall m | 0 < m <= n
        ensures Total(s[..m]) == s[0].size + Total(s[1..][..m - 1])
      {
        assert s[..m][1..] == s[1..][..m - 1];
      }
    }
  }

  /** Insertion keeps the total within bounds and keeps keys unique; the new entry comes last. */
  lemma InsertKeeps(s: seq<Entry>, max: nat, e: Entry, f: string -> int)
    requires Total(s) <= max && UniqueKeys(s) && e.size <= max
    ensures var rest := Remove(Evict(s, max - Total(s), e.size), e.key);
            && Inserted(s, max, e) == rest + [e] && Total(rest + [e]) <= max && UniqueKeys(rest + [e])
            && (forall x :: x in rest ==> x in s && x.key != e.key)
            && (Ordered(s, f) ==> Ordered(rest, f))
  {
    hide UniqueKeys, Ordered, Thinned, Remove, Evict, Evicted, Total;
    EvictsShortest(s, max - Total(s), e.size);
    var n := Evicted(s, max - Total(s), e.size);
    var kept := s[n..];
    var rest := Remove(kept, e.key);
    SuffixThins(s, n);
    ThinnedFacts(kept, s, f);
    RemoveThins(kept, e.key);
    ThinnedFacts(rest, kept, f);
    TotalAppend(s[..n], kept);
    assert s == s[..n] + kept;
    NothingLeft(s, f);
    assert n == |s| ==> kept == [];
    Snoc(rest, e);
  }

  lemma {:induction false} RemoveMeans(s: seq<Entry>, key: string)
    ensures UniqueKeys(s) ==> forall x :: x in Remove(s, key) <==> x in s && x.key != key
  {
    if s != [] {
      assert s == [s[0]] + s[1..];
      RemoveMeans(s[1..], key);
    }
  }

  lemma {:induction false} OthersMean(s: seq<Entry>, users: seq<string>)
    ensures forall x :: x in OfOthers(s, users) <==> x in s && !IsAnyUser(x.key, users)
  {
    hide IsAnyUser;
    if s != [] {
      assert s == s[..|s| - 1] + [s[|s| - 1]];
      OthersMean(s[..|s| - 1], users);
    }
  }

  /** What each operation leaves, entry by entry. */
  lemma ApplyMeans(s: seq<Entry>, op: Op, c: Config)
    requires Total(s) <= c.max && UniqueKeys(s) && (op.Put? ==> op.entry.size <= c.max)
    ensures op.Put? && op.entry.value == "" && c.negTtl == 0 ==> Apply(s, op, c) == s
    ensures op.Put? && (op.entry.value != "" || c.negTtl > 0) ==>
              var after := Apply(s, op, c);
              && after != [] && after[|after| - 1] == op.entry
              && forall x :: x in after ==> x == op.entry || (x in s && x.key != op.entry.key)
    ensures op.Del? ==> forall x :: x in Apply(s, op, c) <==> x in s && x.key != op.key
    ensures op.Flush? ==> Apply(s, op, c) == []
    ensures op.FlushUsers? ==> forall x :: x in Apply(s, op, c) <==> x in s && !IsAnyUser(x.key, op.users)
  {
    hide UniqueKeys, Total, Remove, OfOthers, IsAnyUser, Evict, LookedUp;
    match op {
      case Put(e) => InsertKeeps(s, c.max, e, k => 0);
      case Get(_, _) =>
      case Del(key) => RemoveMeans(s, key);
      case Flush =>
      case FlushUsers(users) => OthersMean(s, users);
    }
  }

  /** A lookup moves an unexpired entry to the end and changes nothing else. */
  lemma GetMeans(s: seq<Entry>, e: Entry, now: int, c: Config)
    requires Total(s) <= c.max && UniqueKeys(s) && e in s
    ensures var after := Apply(s, Get(e.key, now), c);
            if now - e.created > (if e.value == "" then c.negTtl else c.ttl) then after == s
            else after == Remove(s, e.key) + [e]
  {
    FindMember(s, e);
    hide UniqueKeys, Total, Remove, Find;
  }

  lemma {:induction false} FindMember(s: seq<Entry>, e: Entry)
    requires UniqueKeys(s) && e in s
    ensures Find(s, e.key) == Some(e)
  {
    if s[0] != e {
      FindMember(s[1..], e);
    }
  }

  // ------------------------------------------------------------ whole runs

  /** What `op` leaves of `before`, the last thing done to `key`. */
  function Effect(op: Op, key: string, before: Option<Entry>, c: Config): Option<Entry> {
    match op
    case Put(e) => if Accepted(op, c) && e.key == key then Some(e) else before
    case Get(_, _) => before
    case Del(k) => if k == key then None else before
    case Flush => None
    case FlushUsers(users) => if IsAnyUser(key, users) then None else before
  }

  /** What the run last did to `key`: the entry it inserted, or nothing after removing it. */
  function LastEffect(ops: seq<Op>, key: string, c: Config): Option<Entry> {
    if ops == [] then None
    else Effect(ops[|ops| - 1], key, LastEffect(ops[..|ops| - 1], key, c), c)
  }

  lemma {:induction false} FindRemove(s: seq<Entry>, k: string, key: string)
    ensures Find(Remove(s, k), key) == if k == key then None else Find(s, key)
  {
    if s != [] {
      FindRemove(s[1..], k, key);
    }
  }

  lemma FindOne(e: Entry, key: string)
    ensures Find([e], key) == (if e.key == key then Some(e) else None) && Find([], key) == None
  {
  }

  lemma {:induction false} FindOther(s: seq<Entry>, users: seq<string>, key: string)
    ensures Find(OfOthers(s, users), key) == if IsAnyUser(key, users) then None else Find(s, key)
  {
    hide IsAnyUser, Find;
    if s == [] {
      assert OfOthers(s, users) == [] && Find([], key).None?;
    } else {
      var n := |s| - 1;
      FindOther(s[..n], users, key);
      assert s == s[..n] + [s[n]];
      FindAppend(s[..n], [s[n]], key);
      FindAppend(OfOthers(s[..n], users), if IsAnyUser(s[n].key, users) then [] else [s[n]], key);
      FindOne(s[n], key);
    }
  }

  /** `op` makes room by throwing out the entry under `key`. */
  predicate Evicts(s: seq<Entry>, op: Op, key: string, c: Config)
    requires Total(s) <= c.max
  {
    Accepted(op, c) && op.entry.key != key && Find(s[..Evicted(s, c.max - Total(s), op.entry.size)], key).Some?
  }

  lemma FindSplit(s: seq<Entry>, n: nat, key: string)
    requires UniqueKeys(s) && n <= |s|
    ensures Find(s[n..], key) == if Find(s[..n], key).Some? then None else Find(s, key)
    ensures Find(s[..n], key).Some? ==> Find(s, key).Some?
  {
    assert s == s[..n] + s[n..];
    FindAppend(s[..n], s[n..], key);
    forall x, y | x in s[..n] && y in s[n..]
      ensures x.key != y.key
    {
      var i :| 0 <= i < n && s[i] == x;
      var j :| n <= j < |s| && s[j] == y;
    }
  }

  lemma PutFinds(s: seq<Entry>, max: nat, e: Entry, key: string)
    requires Total(s) <= max && UniqueKeys(s) && e.size <= max
    ensures var out := Find(s[..Evicted(s, max - Total(s), e.size)], key).Some?;
            && Find(Inserted(s, max, e), key) == (if e.key == key then Some(e) else if out then None else Find(s, key))
            && (out ==> Find(s, key).Some?)
  {
    hide UniqueKeys, Total, Evict, Evicted, Remove, Find;
    var n := Evicted(s, max - Total(s), e.size);
    EvictsShortest(s, max - Total(s), e.size);
    FindRemove(s[n..], e.key, key);
    FindAppend(Remove(s[n..], e.key), [e], key);
    FindOne(e, key);
    FindSplit(s, n, key);
  }

  /** After one operation a lookup finds what the operation left, unless the operation evicted it. */
  lemma ApplyFinds(s: seq<Entry>, op: Op, key: string, c: Config)
    requires Total(s) <= c.max && UniqueKeys(s) && (op.Put? ==> op.entry.size <= c.max)
    ensures Find(Apply(s, op, c), key) == if Evicts(s, op, key, c) then None else Effect(op, key, Find(s, key), c)
    ensures Evicts(s, op, key, c) ==> Find(s, key).Some?
  {
    hide UniqueKeys, Total, Evicted, Inserted, Remove, OfOthers, IsAnyUser, Find, Expired;
    match op {
      case Put(e) =>
        PutFinds(s, c.max, e, key);
      case Get(k, now) =>
        FindRemove(s, k, key);
        if Find(s, k).Some? {
          FindAppend(Remove(s, k), [Find(s, k).value], key);
          FindOne(Find(s, k).value, key);
        }
      case Del(k) =>
        FindRemove(s, k, key);
      case Flush =>
      case FlushUsers(users) =>
        FindOther(s, users, key);
    }
  }

  /** `op` decides what is under `key`, whatever was there. */
  predicate Sets(op: Op, key: string, c: Config) {
    match op
    case Put(e) => Accepted(op, c) && e.key == key
    case Get(_, _) => false
    case Del(k) => k == key
    case Flush => true
    case FlushUsers(users) => IsAnyUser(key, users)
  }

  /** An insertion after the last operation that decided about `key` has evicted it. */
  predicate EvictedSince(ops: seq<Op>, key: string, c: Config)
    requires Fits(ops, c)
  {
    if ops == [] then false
    else
      var before, op := ops[..|ops| - 1], ops[|ops| - 1];
      !Sets(op, key, c) && (EvictedSince(before, key, c) || Evicts(Run(before, c), op, key, c))
  }

  /** A lookup finds what was last inserted under its key and not removed since, if and only if that was not evicted. */
  lemma {:induction false} FindsLastInserted(ops: seq<Op>, key: string, c: Config)
    requires Fits(ops, c)
    ensures Find(Run(ops, c), key) == if EvictedSince(ops, key, c) then None else LastEffect(ops, key, c)
    ensures Find(Run(ops, c), key) == LastEffect(ops, key, c) <==> !EvictedSince(ops, key, c)
  {
    if ops != [] {
      hide UniqueKeys, Total, Apply, Find, Evicts, Sets, Effect;
      var before, op := ops[..|ops| - 1], ops[|ops| - 1];
      assert op in ops;
      FindsLastInserted(before, key, c);
      ApplyFinds(Run(before, c), op, key, c);
      SetsOrKeeps(Run(before, c), op, key, Find(Run(before, c), key), LastEffect(before, key, c), c);
    }
  }

  lemma SetsOrKeeps(s: seq<Entry>, op: Op, key: string, x: Option<Entry>, y: Option<Entry>, c: Config)
    requires Total(s) <= c.max
    ensures Sets(op, key, c) ==> !Evicts(s, op, key, c) && Effect(op, key, x, c) == Effect(op, key, y, c)
    ensures !Sets(op, key, c) ==> Effect(op, key, x, c) == x && Effect(op, key, y, c) == y
  {
    hide Total, Find, Evicted, IsAnyUser;
  }

  /** `op` makes `key` the most recently used one: an insertion, or a lookup that finds it unexpired. */
  predicate Touches(op: Op, s: seq<Entry>, key: string, c: Config) {
    || (Accepted(op, c) && op.entry.key == key)
    || (op.Get? && op.key == key && Find(s, key).Some? && !Expired(Find(s, key).value, c.ttl, c.negTtl, op.now))
  }

  /** The position of the last operation that touched `key`, or -1. */
  function LastTouch(ops: seq<Op>, key: string, c: Config): int {
    if ops == [] || !Fits(ops, c) then -1
    else
      assert Fits(ops[..|ops| - 1], c);
      if Touches(ops[|ops| - 1], Run(ops[..|ops| - 1], c), key, c) then |ops| - 1
      else LastTouch(ops[..|ops| - 1], key, c)
  }

  lemma {:induction false} TouchBefore(ops: seq<Op>, key: string, c: Config)
    ensures -1 <= LastTouch(ops, key, c) < |ops|
  {
    if ops != [] && Fits(ops, c) {
      TouchBefore(ops[..|ops| - 1], key, c);
    }
  }

  lemma OrderedAs(s: seq<Entry>, f: string -> int, g: string -> int)
    requires Ordered(s, f) && forall e :: e in s ==> f(e.key) == g(e.key)
    ensures Ordered(s, g)
  {
    forall i, j | 0 <= i < j < |s|
      ensures g(s[i].key) < g(s[j].key)
    {
      assert s[i] in s && s[j] in s;
    }
  }

  lemma OrderedSnoc(s: seq<Entry>, e: Entry, f: string -> int)
    requires Ordered(s, f) && forall x :: x in s ==> f(x.key) < f(e.key)
    ensures Ordered(s + [e], f)
  {
  }

  /** The state is always ordered by recency: an entry stands before another exactly when it was last
      touched earlier, so insertion evicts the least recently touched entries. */
  lemma {:induction false} OrderedByLastTouch(ops: seq<Op>, c: Config)
    requires Fits(ops, c)
    ensures Ordered(Run(ops, c), k => LastTouch(ops, k, c))
  {
    if ops != [] {
      var n := |ops| - 1;
      var op := ops[n];
      assert op in ops;
      assert Fits(ops[..n], c);
      OrderedByLastTouch(ops[..n], c);
      var s := Run(ops[..n], c);
      var f, g := (k: string) => LastTouch(ops[..n], k, c), (k: string) => LastTouch(ops, k, c);
      forall k
        ensures f(k) < n && (g(k) == if Touches(op, s, k, c) then n else f(k))
      {
        TouchBefore(ops[..n], k, c);
      }
      ApplyOrder(s, op, c, n, f, g);
    }
  }

  lemma ApplyOrder(s: seq<Entry>, op: Op, c: Config, n: nat, f: string -> int, g: string -> int)
    requires Total(s) <= c.max && UniqueKeys(s) && (op.Put? ==> op.entry.size <= c.max)
    requires Ordered(s, f)
    requires forall k :: f(k) < n && (g(k) == if Touches(op, s, k, c) then n else f(k))
    ensures Ordered(Apply(s, op, c), g)
  {
    hide UniqueKeys, Total, Evict, Remove, OfOthers, Thinned, Ordered, Find;
    match op {
      case Put(e) =>
        InsertKeeps(s, c.max, e, f);
        if Accepted(op, c) {
          var rest := Remove(Evict(s, c.max - Total(s), e.size), e.key);
          OrderedAs(rest, f, g);
          OrderedSnoc(rest, e, g);
        } else {
          OrderedAs(s, f, g);
        }
      case Get(k, now) =>
        if Touches(op, s, k, c) {
          MoveKeeps(s, k, f);
          OrderedAs(Remove(s, k), f, g);
          OrderedSnoc(Remove(s, k), Find(s, k).value, g);
        } else {
          OrderedAs(s, f, g);
        }
      case Del(k) =>
        RemoveThins(s, k);
        ThinnedFacts(Remove(s, k), s, f);
        OrderedAs(Remove(s, k), f, g);
      case Flush =>
        NothingLeft(s, g);
      case FlushUsers(users) =>
        OthersThin(s, users);
        ThinnedFacts(OfOthers(s, users), s, f);
        OrderedAs(OfOthers(s, users), f, g);
    }
  }

  // ------------------------------------------------------------ the data structure

  /** Sizes as `auth_cache_insert` computes them, small enough for the 31 bits of a node. */
  predicate Sized(op: Op) {
    op.Put? ==> op.entry.size == AllocSize(op.entry.key, op.entry.value) < ALLOC_RANGE
  }

  ghost function ConfigOf(cache: Cache): Config {
    Config(cache.maxSize, cache.ttl, cache.negTtl)
  }

  /** One operation on the linked list and the hash table. */
  method Perform(cache: Cache, op: Op)
    requires cache.Valid() && cache.maxSize < SIZE_RANGE && Sized(op) && (op.Put? ==> op.entry.size <= cache.maxSize)
    requires Total(Contents(cache.nodes)) <= cache.maxSize
    modifies cache, NodeSet(cache.nodes)
    ensures cache.Valid() && Contents(cache.nodes) == Apply(Contents(old(cache.nodes)), op, ConfigOf(cache))
    ensures fresh(NodeSet(cache.nodes) - NodeSet(old(cache.nodes)))
  {
    hide Chain, Indexed, Contents, Total, Inserted, LookedUp, Remove, OfOthers;
    match op {
      case Put(e) =>
        cache.Insert(e.key, e.value, e.created, true);
      case Get(key, now) =>
        var _, _, _ := cache.Lookup(key, now);
      case Del(key) =>
        ghost var _ := cache.RemoveKey(key);
      case Flush =>
        var _ := cache.Clear();
      case FlushUsers(users) =>
        var _ := cache.ClearUsers(users);
    }
  }

  /** Every run leaves the linked list, the hash table and the accounting as the abstract run says. */
  method RunOn(ops: seq<Op>, c: Config) returns (cache: Cache)
    requires Fits(ops, c) && c.max < SIZE_RANGE && forall op :: op in ops ==> Sized(op)
    ensures cache.Valid() && Contents(cache.nodes) == Run(ops, c)
    ensures ConfigOf(cache) == c && fresh(cache) && fresh(NodeSet(cache.nodes))
  {
    hide Cache.Valid, Contents, Total, Apply, Sized;
    cache := new Cache(c.max, c.ttl, c.negTtl);
    var i := 0;
    assert ops[..0] == [];
    while i < |ops|
      invariant i <= |ops| && cache.Valid() && ConfigOf(cache) == c && fresh(cache) && fresh(NodeSet(cache.nodes))
      invariant Fits(ops[..i], c) && Contents(cache.nodes) == Run(ops[..i], c)
    {
      assert ops[i] in ops && Fits(ops[..i + 1], c) && ops[..i + 1][..i] == ops[..i];
      Perform(cache, ops[i]);
      i := i + 1;
    }
    assert ops[..i] == ops;
  }

  /**
   A lookup after any run returns the value last inserted under its key, unless that was removed or evicted.  It is
   expired if it was inserted longer ago than the time to live for values, or for empty ones the one for negative
   entries; only if it is not does it become the most recent entry.
   */
  method LookupAfter(ops: seq<Op>, c: Config, key: string, now: int)
    returns (value: Option<string>, expired: bool, negExpired: bool, cache: Cache)
    requires Fits(ops, c) && c.max < SIZE_RANGE && forall op :: op in ops ==> Sized(op)
    ensures var last := LastEffect(ops, key, c);
            if EvictedSince(ops, key, c) || last.None? then
              value == None && !expired && !negExpired && Contents(cache.nodes) == Run(ops, c)
            else
              && value == Some(last.value.value)
              && (expired <==> now - last.value.created > if value == Some("") then c.negTtl else c.ttl)
              && (negExpired <==> now - last.value.created > c.negTtl)
              && (expired ==> Contents(cache.nodes) == Run(ops, c))
              && (!expired ==> cache.nodes != [] && Contents(cache.nodes)[|cache.nodes| - 1] == last.value)
    ensures cache.Valid() && fresh(cache)
  {
    hide Cache.Valid, Contents, Total, Sized, Run, Find, Remove, LastEffect, EvictedSince;
    cache := RunOn(ops, c);
    FindsLastInserted(ops, key, c);
    value, expired, negExpired := cache.Lookup(key, now);
  }
}
