/**
 The anvil connection limiter (connect-limit.c): how many connections an identity has, and how many of
 them come from each process.  The identity strings live as keys of one table and are pointed at from
 the other, so a key must not be freed while the other table still uses it.
 */
module ConnectLimit {

  type Pair = (string, int)

  // ------------------------------------------------- the connections that are open

  ghost function Count<T>(live: seq<(T, int)>, ident: T): nat {
    if live == [] then 0 else (if live[0].0 == ident then 1 else 0) + Count(live[1..], ident)
  }

  ghost function OfOthers<T>(live: seq<(T, int)>, pid: int): seq<(T, int)> {
    if live == [] then [] else (if live[0].1 == pid then [] else [live[0]]) + OfOthers(live[1..], pid)
  }

  /** `live` without its first `p`. */
  ghost function Closed<T>(live: seq<(T, int)>, p: (T, int)): seq<(T, int)> {
    if live == [] then [] else if live[0] == p then live[1..] else [live[0]] + Closed(live[1..], p)
  }

  lemma {:induction false} CountAppend<T>(live: seq<(T, int)>, p: (T, int), ident: T)
    ensures Count(live + [p], ident) == Count(live, ident) + if p.0 == ident then 1 else 0
  {
    if live != [] {
      CountAppend(live[1..], p, ident);
      assert (live + [p])[1..] == live[1..] + [p];
    }
  }

  lemma {:induction false} CountClosed<T>(live: seq<(T, int)>, p: (T, int), ident: T)
    requires p in live
    ensures Count(Closed(live, p), ident) == Count(live, ident) - if p.0 == ident then 1 else 0
  {
    if live[0] != p {
      CountClosed(live[1..], p, ident);
    }
  }

  lemma {:induction false} CountMember<T>(live: seq<(T, int)>, p: (T, int))
    requires p in live
    ensures Count(live, p.0) > 0
  {
    if live[0] != p {
      CountMember(live[1..], p);
    }
  }

  lemma {:induction false} ClosedOnce<T>(live: seq<(T, int)>, p: (T, int))
    requires p in live
    ensures multiset(Closed(live, p)) == multiset(live) - multiset{p}
  {
    assert live == [live[0]] + live[1..];
    if live[0] != p {
      ClosedOnce(live[1..], p);
    }
  }

  lemma {:induction false} OthersStay<T>(live: seq<(T, int)>, p: (T, int))
    requires p in live
    ensures OfOthers(Closed(live, p), p.1) == OfOthers(live, p.1)
  {
    if live[0] != p {
      OthersStay(live[1..], p);
      assert ([live[0]] + Closed(live[1..], p))[1..] == Closed(live[1..], p);
    }
  }

  lemma {:induction false} NoneOfPid<T>(live: seq<(T, int)>, pid: int)
    requires forall p :: p in live ==> p.1 != pid
    ensures OfOthers(live, pid) == live
  {
    if live != [] {
      NoneOfPid(live[1..], pid);
    }
  }

  /** The other identities and processes keep every connection they have. */
  lemma {:induction false} OfOthersKeeps<T>(live: seq<(T, int)>, pid: int, p: (T, int))
    ensures multiset(OfOthers(live, pid))[p] == if p.1 == pid then 0 else multiset(live)[p]
  {
    if live != [] {
      OfOthersKeeps(live[1..], pid, p);
      assert live == [live[0]] + live[1..];
    }
  }

  // ------------------------------------------------- the two tables

  /** `key` stands for the address of the key string. */
  datatype IdentRef = IdentRef(key: nat, count: nat)

  datatype IdentPid = IdentPid(key: nat, refcount: nat)

  ghost function Known<T>(identHash: map<T, IdentRef>, ident: T): nat {
    if ident in identHash then identHash[ident].count else 0
  }

  ghost function Refs<T>(identPids: map<(T, int), IdentPid>, p: (T, int)): nat {
    if p in identPids then identPids[p].refcount else 0
  }

  ghost predicate Counts<T(!new)>(identHash: map<T, IdentRef>, live: seq<(T, int)>) {
    forall ident :: Known(identHash, ident) == Count(live, ident) && (ident in identHash ==> identHash[ident].count > 0)
  }

  /** The per-process table, leaving aside the pairs in `except`. */
  ghost predicate Shares<T(!new)>(identPids: map<(T, int), IdentPid>, live: seq<(T, int)>, except: set<(T, int)>) {
    forall p :: p !in except ==>
      Refs(identPids, p) == multiset(live)[p] && (p in identPids ==> identPids[p].refcount > 0)
  }

  ghost predicate LiveKeys<T>(identHash: map<T, IdentRef>, identPids: map<(T, int), IdentPid>) {
    forall p :: p in identPids ==> p.0 in identHash && identHash[p.0].key == identPids[p].key
  }

  /** Every identity has a key string of its own. */
  ghost predicate OwnKeys<T(!new)>(identHash: map<T, IdentRef>, nextKey: nat) {
    && (forall a :: a in identHash ==> identHash[a].key < nextKey)
    && (forall a, b :: a in identHash && b in identHash && a != b ==> identHash[a].key != identHash[b].key)
  }

  lemma Opened<T(!new)>(identHash: map<T, IdentRef>, identPids: map<(T, int), IdentPid>, live: seq<(T, int)>,
                        p: (T, int), key: nat)
    requires Counts(identHash, live) && Shares(identPids, live, {})
    requires p.0 in identHash ==> key == identHash[p.0].key
    ensures Counts(identHash[p.0 := IdentRef(key, Known(identHash, p.0) + 1)], live + [p])
    ensures Shares(identPids[p := IdentPid(key, Refs(identPids, p) + 1)], live + [p], {})
  {
    var hash := identHash[p.0 := IdentRef(key, Known(identHash, p.0) + 1)];
    forall ident
      ensures Known(hash, ident) == Count(live + [p], ident)
    {
      CountAppend(live, p, ident);
      assert Known(identHash, ident) == Count(live, ident);
    }
  }

  lemma OwnKeyed<T(!new)>(identHash: map<T, IdentRef>, nextKey: nat, ident: T)
    requires OwnKeys(identHash, nextKey)
    ensures ident !in identHash ==> forall n :: OwnKeys(identHash[ident := IdentRef(nextKey, n)], nextKey + 1)
    ensures ident in identHash ==> forall n :: OwnKeys(identHash[ident := IdentRef(identHash[ident].key, n)], nextKey)
  {
  }

  /** Dropping one reference to an identity: it is there, and its key goes with its last connection only. */
  lemma Unreferenced<T(!new)>(identHash: map<T, IdentRef>, live: seq<(T, int)>, p: (T, int))
    requires Counts(identHash, live) && p in live
    ensures p.0 in identHash && identHash[p.0].count > 0
    ensures Counts(Dropped(identHash, p.0), Closed(live, p))
  {
    CountMember(live, p);
    assert Known(identHash, p.0) == Count(live, p.0);
    forall ident
      ensures Known(Dropped(identHash, p.0), ident) == Count(Closed(live, p), ident)
    {
      CountClosed(live, p, ident);
      assert Known(identHash, ident) == Count(live, ident);
    }
  }

  ghost function Dropped<T>(identHash: map<T, IdentRef>, ident: T): map<T, IdentRef>
    requires ident in identHash && identHash[ident].count > 0
  {
    if identHash[ident].count == 1 then identHash - {ident}
    else identHash[ident := identHash[ident].(count := identHash[ident].count - 1)]
  }

  lemma KeysStayLive<T(!new)>(identHash: map<T, IdentRef>, identPids: map<(T, int), IdentPid>, live: seq<(T, int)>,
                              ident: T, except: set<(T, int)>)
    requires LiveKeys(identHash, identPids) && Shares(identPids, live, except)
    requires ident in identHash && identHash[ident].count > 0
    requires Counts(Dropped(identHash, ident), live) && forall p :: p in except ==> p !in identPids
    ensures LiveKeys(Dropped(identHash, ident), identPids)
  {
    forall p | p in identPids
      ensures p.0 in Dropped(identHash, ident)
    {
      assert Refs(identPids, p) == multiset(live)[p];
      assert p in multiset(live);
      CountMember(live, p);
      assert Known(Dropped(identHash, ident), p.0) == Count(live, p.0);
    }
  }

  lemma SharesClosed<T(!new)>(identPids: map<(T, int), IdentPid>, live: seq<(T, int)>, p: (T, int))
    requires Shares(identPids, live, {p}) && p in live
    ensures Shares(identPids, Closed(live, p), {p})
  {
    ClosedOnce(live, p);
  }

  // ------------------------------------------------- the sum of the per-process counts

  ghost function Sum<T(!new)>(identPids: map<(T, int), IdentPid>, ident: T): nat {
    if identPids == map[] then 0
    else
      var p :| p in identPids;
      (if p.0 == ident then identPids[p].refcount else 0) + Sum(identPids - {p}, ident)
  }

  lemma {:induction false} SumWithout<T(!new)>(identPids: map<(T, int), IdentPid>, q: (T, int), ident: T)
    requires q in identPids
    ensures Sum(identPids, ident) == Sum(identPids - {q}, ident) + if q.0 == ident then identPids[q].refcount else 0
  {
    var p :| p in identPids
             && Sum(identPids, ident)
                == Sum(identPids - {p}, ident) + if p.0 == ident then identPids[p].refcount else 0;
    if p != q {
      SumWithout(identPids - {p}, q, ident);
      SumWithout(identPids - {q}, p, ident);
      assert identPids - {p} - {q} == identPids - {q} - {p};
    }
  }

  ghost function Fewer<T>(identPids: map<(T, int), IdentPid>, p: (T, int)): map<(T, int), IdentPid>
    requires p in identPids && identPids[p].refcount > 0
  {
    if identPids[p].refcount == 1 then identPids - {p}
    else identPids[p := identPids[p].(refcount := identPids[p].refcount - 1)]
  }

  lemma FewerShares<T(!new)>(identPids: map<(T, int), IdentPid>, live: seq<(T, int)>, rest: seq<(T, int)>, p: (T, int))
    requires Shares(identPids, live, {}) && multiset(live) == multiset(rest) + multiset{p}
    ensures p in identPids && identPids[p].refcount > 0 && Shares(Fewer(identPids, p), rest, {})
  {
    assert Refs(identPids, p) == multiset(live)[p];
  }

  lemma SharesAt<T(!new)>(identPids: map<(T, int), IdentPid>, live: seq<(T, int)>, p: (T, int))
    requires Shares(identPids, live, {})
    ensures p in identPids <==> p in live
    ensures p in identPids ==> identPids[p].refcount > 0
  {
    assert Refs(identPids, p) == multiset(live)[p];
  }

  lemma FewerKeys<T(!new)>(identHash: map<T, IdentRef>, identPids: map<(T, int), IdentPid>, p: (T, int))
    requires LiveKeys(identHash, identPids) && p in identPids && identPids[p].refcount > 0
    ensures LiveKeys(identHash, Fewer(identPids, p))
  {
  }

  lemma FewerSum<T(!new)>(identPids: map<(T, int), IdentPid>, p: (T, int), ident: T)
    requires p in identPids && identPids[p].refcount > 0
    ensures Sum(identPids, ident) == Sum(Fewer(identPids, p), ident) + if p.0 == ident then 1 else 0
  {
    hide Sum;
    SumWithout(identPids, p, ident);
    var fewer := Fewer(identPids, p);
    if p in fewer {
      SumWithout(fewer, p, ident);
      assert fewer - {p} == identPids - {p};
    }
  }

  /** Each identity's count is the sum of its per-process counts. */
  lemma {:induction false} CountIsSum<T(!new)>(identPids: map<(T, int), IdentPid>, live: seq<(T, int)>, ident: T)
    requires Shares(identPids, live, {})
    ensures Sum(identPids, ident) == Count(live, ident)
    decreases |live|
  {
    if live == [] {
      assert forall p :: Refs(identPids, p) == 0;
      assert forall p :: p !in identPids;
      assert identPids == map[];
    } else {
      assert live == [live[0]] + live[1..];
      FewerShares(identPids, live, live[1..], live[0]);
      CountIsSum(Fewer(identPids, live[0]), live[1..], ident);
      FewerSum(identPids, live[0], ident);
    }
  }

  // ------------------------------------------------- the operations

  class Limiter {
    var identHash: map<string, IdentRef>
    var identPids: map<Pair, IdentPid>
    var nextKey: nat
    /** The open connections. */
    ghost var live: seq<Pair>

    constructor ()
      ensures Valid() && live == []
    {
      identHash, identPids, nextKey, live := map[], map[], 0, [];
    }

    ghost predicate Valid()
      reads this
    {
      && Counts(identHash, live) && Shares(identPids, live, {}) && LiveKeys(identHash, identPids)
      && OwnKeys(identHash, nextKey)
    }

    /** `connect_limit_lookup` */
    method Lookup(ident: string) returns (count: nat)
      requires Valid()
      ensures count == Count(live, ident) == Sum(identPids, ident)
    {
      CountIsSum(identPids, live, ident);
      assert Known(identHash, ident) == Count(live, ident);
      count := if ident in identHash then identHash[ident].count else 0;
    }

    /** `connect_limit_connect` */
    method Connect(pid: int, ident: string)
      requires Valid()
      modifies this
      ensures Valid() && live == old(live) + [(ident, pid)]
    {
      hide Counts, Shares, OwnKeys;
      OwnKeyed(identHash, nextKey, ident);
      var key;
      if ident !in identHash {
        key, nextKey := nextKey, nextKey + 1;
      } else {
        key := identHash[ident].key;
      }
      Opened(identHash, identPids, live, (ident, pid), key);
      identHash := identHash[ident := IdentRef(key, (if ident in identHash then identHash[ident].count else 0) + 1)];
      var before := if (ident, pid) in identPids then identPids[(ident, pid)].refcount else 0;
      identPids := identPids[(ident, pid) := IdentPid(key, before + 1)];
      live := live + [(ident, pid)];
    }

    /** `connect_limit_ident_hash_unref`: the panic cannot happen for an open connection. */
    method IdentHashUnref(pid: int, ident: string, ghost except: set<Pair>)
      requires Counts(identHash, live) && LiveKeys(identHash, identPids) && (ident, pid) in live
      requires OwnKeys(identHash, nextKey)
      requires Shares(identPids, Closed(live, (ident, pid)), except) && forall p :: p in except ==> p !in identPids
      modifies this`identHash, this`live
      ensures Counts(identHash, live) && LiveKeys(identHash, identPids) && live == Closed(old(live), (ident, pid))
      ensures ident in old(identHash) && (ident in identHash ==> identHash[ident].key == old(identHash)[ident].key)
      ensures OwnKeys(identHash, nextKey)
    {
      hide Counts, Shares, LiveKeys, Closed;
      Unreferenced(identHash, live, (ident, pid));
      KeysStayLive(identHash, identPids, Closed(live, (ident, pid)), ident, except);
      assert ident in identHash;  // the panic
      var count := identHash[ident].count - 1;
      if count > 0 {
        identHash := identHash[ident := identHash[ident].(count := count)];
      } else {
        identHash := identHash - {ident};
      }
      live := Closed(live, (ident, pid));
    }

    /** `connect_limit_disconnect`: an unknown pair is an error that changes nothing. */
    method Disconnect(pid: int, ident: string) returns (found: bool)
      requires Valid()
      modifies this
      ensures Valid() && (found <==> (ident, pid) in old(live))
      ensures found ==>
                live == Closed(old(live), (ident, pid))
                && multiset(live) == multiset(old(live)) - multiset{(ident, pid)}
      ensures !found ==> live == old(live) && identHash == old(identHash) && identPids == old(identPids)
    {
      hide Counts, Shares, LiveKeys, Closed;
      var p := (ident, pid);
      SharesAt(identPids, live, p);
      if p !in identPids {
        return false;
      }
      ClosedOnce(live, p);
      FewerShares(identPids, live, Closed(live, p), p);
      FewerKeys(identHash, identPids, p);
      if identPids[p].refcount == 1 {
        identPids := identPids - {p};
      } else {
        identPids := identPids[p := identPids[p].(refcount := identPids[p].refcount - 1)];
      }
      IdentHashUnref(pid, ident, {});
      return true;
    }

    /** The inner loop of `connect_limit_disconnect_pid`, for one pair that has been taken out of the table. */
    method DropPair(p: Pair, refcount: nat, key: nat)
      requires Counts(identHash, live) && LiveKeys(identHash, identPids) && p !in identPids
      requires OwnKeys(identHash, nextKey)
      requires p.0 in identHash && identHash[p.0].key == key
      requires Shares(identPids, live, {p}) && refcount == multiset(live)[p]
      modifies this`identHash, this`live
      ensures Valid() && p !in live && OfOthers(live, p.1) == OfOthers(old(live), p.1)
      ensures forall q :: q in live ==> q in old(live)
    {
      hide Counts, Shares, LiveKeys, Closed, OfOthers;
      var left := refcount;
      while left > 0
        invariant Counts(identHash, live) && LiveKeys(identHash, identPids) && OwnKeys(identHash, nextKey)
        invariant Shares(identPids, live, {p}) && left == multiset(live)[p]
        invariant OfOthers(live, p.1) == OfOthers(old(live), p.1)
        invariant multiset(live) <= multiset(old(live))
        invariant p.0 in identHash ==> identHash[p.0].key == key
      {
        Unreferenced(identHash, live, p);
        assert p.0 in identHash && identHash[p.0].key == key;  // the pair's own string is still there
        SharesClosed(identPids, live, p);
        ClosedOnce(live, p);
        OthersStay(live, p);
        IdentHashUnref(p.1, p.0, {p});
        left := left - 1;
      }
      NoneExcepted(identPids, live, p);
      forall q | q in live
        ensures q in old(live)
      {
        assert q in multiset(live);
      }
    }

    /** One pair of the process goes, with all its references. */
    method RemovePair(p: Pair)
      requires Valid() && p in identPids
      modifies this`identHash, this`identPids, this`live
      ensures Valid() && p !in live && OfOthers(live, p.1) == OfOthers(old(live), p.1)
      ensures identPids == old(identPids) - {p} && forall q :: q in live ==> q in old(live)
    {
      hide Counts, Shares, LiveKeys, OfOthers;
      TakenOut(identHash, identPids, live, p);
      var IdentPid(key, refcount) := identPids[p];
      identPids := identPids - {p};
      DropPair(p, refcount, key);
    }

    /** `connect_limit_disconnect_pid`: the connections of that process go, and nothing else. */
    method DisconnectPid(pid: int)
      requires Valid()
      modifies this`identHash, this`identPids, this`live
      ensures Valid() && live == OfOthers(old(live), pid)
    {
      var pairs := identPids.Keys;
      InTable(identPids, live);
      hide Counts, Shares, LiveKeys, OfOthers;
      while pairs != {}
        invariant Valid() && OfOthers(live, pid) == OfOthers(old(live), pid)
        invariant pairs <= identPids.Keys
        invariant forall p :: p in live && p.1 == pid ==> p in pairs
        decreases |pairs|
      {
        var p :| p in pairs;
        pairs := pairs - {p};
        if p.1 == pid {
          RemovePair(p);
        }
      }
      NoneOfPid(live, pid);
    }

    /** Over every run of the three commands the tables stand for the connections that are open. */
    method Run(events: seq<Event>)
      requires Valid()
      modifies this
      ensures Valid() && live == Replay(old(live), events)
    {
      hide Counts, Shares, LiveKeys, Closed, OfOthers;
      var i := 0;
      while i < |events|
        invariant i <= |events| && Valid() && Replay(live, events[i..]) == Replay(old(live), events)
      {
        assert events[i..][1..] == events[i + 1..];
        match events[i] {
          case Connect(pid, ident) =>
            Connect(pid, ident);
          case Disconnect(pid, ident) =>
            if (ident, pid) !in live {
              ClosedUnknown(live, (ident, pid));
            }
            var _ := Disconnect(pid, ident);
          case DisconnectPid(pid) =>
            DisconnectPid(pid);
        }
        i := i + 1;
      }
    }
  }

  lemma InTable<T(!new)>(identPids: map<(T, int), IdentPid>, live: seq<(T, int)>)
    requires Shares(identPids, live, {})
    ensures forall p :: p in live ==> p in identPids
  {
    forall p | p in live
      ensures p in identPids
    {
      assert p in multiset(live) && Refs(identPids, p) == multiset(live)[p];
    }
  }

  lemma TakenOut<T(!new)>(identHash: map<T, IdentRef>, identPids: map<(T, int), IdentPid>, live: seq<(T, int)>,
                          p: (T, int))
    requires LiveKeys(identHash, identPids) && Shares(identPids, live, {}) && p in identPids
    ensures LiveKeys(identHash, identPids - {p}) && Shares(identPids - {p}, live, {p})
    ensures p.0 in identHash && identHash[p.0].key == identPids[p].key
    ensures identPids[p].refcount == multiset(live)[p]
  {
    assert Refs(identPids, p) == multiset(live)[p];
    assert forall q :: q != p ==> Refs(identPids, q) == Refs(identPids - {p}, q);
  }

  datatype Event = Connect(pid: int, ident: string) | Disconnect(pid: int, ident: string) | DisconnectPid(pid: int)

  ghost function Replay(live: seq<Pair>, events: seq<Event>): seq<Pair>
    decreases |events|
  {
    if events == [] then live
    else match events[0]
      case Connect(pid, ident) => Replay(live + [(ident, pid)], events[1..])
      case Disconnect(pid, ident) => Replay(Closed(live, (ident, pid)), events[1..])
      case DisconnectPid(pid) => Replay(OfOthers(live, pid), events[1..])
  }

  /** What each command does to the number of open connections of each identity and process. */
  lemma ReplayMeans(live: seq<Pair>, events: seq<Event>, e: Event, p: Pair)
    ensures var before, after := multiset(Replay(live, events)), multiset(Replay(live, events + [e]));
            match e
            case Connect(pid, ident) => after[p] == before[p] + if p == (ident, pid) then 1 else 0
            case Disconnect(pid, ident) => after[p] == before[p] - if p == (ident, pid) && before[p] > 0 then 1 else 0
            case DisconnectPid(pid) => after[p] == if p.1 == pid then 0 else before[p]
  {
    ReplayLast(live, events, e);
    var before := Replay(live, events);
    match e {
      case Connect(_, _) =>
      case Disconnect(pid, ident) =>
        if (ident, pid) in before {
          ClosedOnce(before, (ident, pid));
        } else {
          ClosedUnknown(before, (ident, pid));
        }
      case DisconnectPid(pid) =>
        OfOthersKeeps(before, pid, p);
    }
  }

  lemma {:induction false} ReplayLast(live: seq<Pair>, events: seq<Event>, e: Event)
    ensures Replay(live, events + [e]) == Replay(Replay(live, events), [e])
    decreases |events|
  {
    hide Closed, OfOthers;
    if events == [] {
      assert [] + [e] == [e];
    } else {
      assert (events + [e])[0] == events[0] && (events + [e])[1..] == events[1..] + [e];
      match events[0] {
        case Connect(pid, ident) => ReplayLast(live + [(ident, pid)], events[1..], e);
        case Disconnect(pid, ident) => ReplayLast(Closed(live, (ident, pid)), events[1..], e);
        case DisconnectPid(pid) => ReplayLast(OfOthers(live, pid), events[1..], e);
      }
    }
  }

  lemma {:induction false} ClosedUnknown<T>(live: seq<(T, int)>, p: (T, int))
    requires p !in live
    ensures Closed(live, p) == live
  {
    if live != [] {
      ClosedUnknown(live[1..], p);
    }
  }

  lemma NoneExcepted<T(!new)>(identPids: map<(T, int), IdentPid>, live: seq<(T, int)>, p: (T, int))
    requires Shares(identPids, live, {p}) && p !in identPids && multiset(live)[p] == 0
    ensures Shares(identPids, live, {}) && p !in live
  {
    assert p !in multiset(live);
    assert Refs(identPids, p) == 0;
  }
}
