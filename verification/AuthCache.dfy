/**
 The authentication cache (auth-cache.c): nodes on a doubly linked list from the least to the
 most recently used, a hash table from expanded keys to nodes, and the number of bytes left.
 */
module AuthCache {
  import opened Wrappers

  /** sizeof(struct auth_cache_node) without its data array. */
  const NODE_OVERHEAD := 28
  const SIZE_RANGE := 0x1_0000_0000_0000_0000
  /** A node keeps its size in a bit field of 31 bits. */
  const ALLOC_RANGE := 0x8000_0000

  class Node {
    const key: string
    const value: string
    const created: int
    const allocSize: nat
    var lastSuccess: bool
    var prev: Node?
    var next: Node?

    constructor (key: string, value: string, created: int, allocSize: nat, lastSuccess: bool)
      ensures this.key == key && this.value == value && this.created == created
      ensures this.allocSize == allocSize && this.lastSuccess == lastSuccess && prev == null && next == null
    {
      this.key, this.value, this.created, this.allocSize := key, value, created, allocSize;
      this.lastSuccess, prev, next := lastSuccess, null, null;
    }
  }

  /** The prev and next pointers follow the sequence. */
  ghost predicate Linked(nodes: seq<Node>)
    reads nodes
  {
    && (forall i {:trigger nodes[i].prev} :: 0 <= i < |nodes| ==>
          nodes[i].prev == if i == 0 then null else nodes[i - 1])
    && (forall i {:trigger nodes[i].next} :: 0 <= i < |nodes| ==>
          nodes[i].next == if i == |nodes| - 1 then null else nodes[i + 1])
  }

  /** A well formed list from `tail`, the oldest node, to `head`. */
  ghost predicate Chain(nodes: seq<Node>, tail: Node?, head: Node?)
    reads nodes
  {
    && Distinct(nodes)
    && Linked(nodes)
    && tail == (if nodes == [] then null else nodes[0])
    && head == (if nodes == [] then null else nodes[|nodes| - 1])
  }

  ghost function NodeSet(nodes: seq<Node>): set<Node> {
    set n | n in nodes
  }

  lemma NextIs(nodes: seq<Node>, i: nat)
    requires Linked(nodes) && i < |nodes|
    ensures nodes[i].next == if i == |nodes| - 1 then null else nodes[i + 1]
  {
  }

  ghost function Without(nodes: seq<Node>, i: nat): seq<Node>
    requires i < |nodes|
  {
    nodes[..i] + nodes[i + 1..]
  }

  /** The pointers follow the sequence, but past the node at `i`. */
  ghost predicate Bypassed(nodes: seq<Node>, i: nat)
    requires i < |nodes|
    reads nodes
  {
    && (forall j {:trigger nodes[j].prev} :: 0 <= j < |nodes| && j != i ==>
          nodes[j].prev == if j == 0 || (j == 1 && i == 0) then null else nodes[if j == i + 1 then i - 1 else j - 1])
    && (forall j {:trigger nodes[j].next} :: 0 <= j < |nodes| && j != i ==>
          nodes[j].next == if j == |nodes| - 1 || (i == |nodes| - 1 && j == i - 1) then null
                           else nodes[if j == i - 1 then i + 1 else j + 1])
  }

  lemma BypassedLinks(nodes: seq<Node>, i: nat)
    requires i < |nodes| && Bypassed(nodes, i)
    ensures Linked(Without(nodes, i))
  {
    var rest := Without(nodes, i);
    assert forall j :: 0 <= j < |rest| ==> rest[j] == nodes[if j < i then j else j + 1];
  }

  lemma OnlyAt(nodes: seq<Node>, i: nat)
    requires Distinct(nodes) && i < |nodes|
    ensures forall j :: 0 <= j < |nodes| && nodes[j] == nodes[i] ==> j == i
  {
  }

  /** The nodes around `i` stand nowhere else in the list. */
  lemma Neighbours(nodes: seq<Node>, i: nat)
    requires Distinct(nodes) && Linked(nodes) && i < |nodes|
    ensures nodes[i].prev == (if i == 0 then null else nodes[i - 1])
    ensures nodes[i].next == (if i == |nodes| - 1 then null else nodes[i + 1])
    ensures i > 0 ==> forall j :: 0 <= j < |nodes| && nodes[j] == nodes[i - 1] ==> j == i - 1
    ensures i < |nodes| - 1 ==> forall j :: 0 <= j < |nodes| && nodes[j] == nodes[i + 1] ==> j == i + 1
  {
    if i > 0 {
      OnlyAt(nodes, i - 1);
    }
    if i < |nodes| - 1 {
      OnlyAt(nodes, i + 1);
    }
  }

  lemma StillDistinct(nodes: seq<Node>, i: nat)
    requires Distinct(nodes) && i < |nodes|
    ensures Distinct(Without(nodes, i))
  {
    var rest := Without(nodes, i);
    assert forall j :: 0 <= j < |rest| ==> rest[j] == nodes[if j < i then j else j + 1];
  }

  lemma FewerNodes(nodes: seq<Node>, i: nat)
    requires i <= |nodes|
    ensures NodeSet(nodes[i..]) <= NodeSet(nodes) && (i < |nodes| ==> NodeSet(Without(nodes, i)) <= NodeSet(nodes))
  {
  }

  lemma WithoutEnds(nodes: seq<Node>, i: nat)
    requires i < |nodes|
    ensures var rest := Without(nodes, i);
            && |rest| == |nodes| - 1
            && (rest != [] ==> rest[0] == nodes[if i == 0 then 1 else 0]
                               && rest[|rest| - 1] == nodes[if i == |rest| then |rest| - 1 else |rest|])
  {
  }

  lemma WithoutFirst(nodes: seq<Node>)
    requires nodes != []
    ensures Without(nodes, 0) == nodes[1..]
  {
  }

  // ------------------------------------------------ the cache as a recency sequence

  /** What a node holds; `size` is its share of the cache's memory. */
  datatype Entry = Entry(key: string, value: string, created: int, size: nat)

  function Remove(entries: seq<Entry>, key: string): (r: seq<Entry>)
    ensures forall e :: e in r <==> e in entries && e.key != key
  {
    if entries == [] then []
    else if entries[0].key == key then Remove(entries[1..], key)
    else [entries[0]] + Remove(entries[1..], key)
  }

  function Find(entries: seq<Entry>, key: string): (e: Option<Entry>)
    ensures e.Some? ==> e.value in entries && e.value.key == key
    ensures e.None? ==> forall x :: x in entries ==> x.key != key
  {
    if entries == [] then None
    else if entries[0].key == key then Some(entries[0])
    else Find(entries[1..], key)
  }

  function Total(entries: seq<Entry>): nat {
    if entries == [] then 0 else entries[0].size + Total(entries[1..])
  }

  /** The entries that are left after the oldest ones have made room for `need` bytes. */
  function Evict(entries: seq<Entry>, left: nat, need: nat): seq<Entry> {
    if left >= need || entries == [] then entries
    else Evict(entries[1..], left + entries[0].size, need)
  }

  lemma EvictOldest(entries: seq<Entry>, left: nat, need: nat)
    requires left < need && entries != []
    ensures Evict(entries, left, need) == Evict(entries[1..], left + entries[0].size, need)
  {
  }

  lemma EvictNone(entries: seq<Entry>, left: nat, need: nat)
    requires left >= need || entries == []
    ensures Evict(entries, left, need) == entries
  {
  }

  function Inserted(entries: seq<Entry>, max: nat, e: Entry): seq<Entry>
    requires Total(entries) <= max
  {
    Remove(Evict(entries, max - Total(entries), e.size), e.key) + [e]
  }

  function TtlOf(e: Entry, ttl: nat, negTtl: nat): nat {
    if e.value == "" then negTtl else ttl
  }

  predicate Expired(e: Entry, ttl: nat, negTtl: nat, now: int) {
    e.created < now - TtlOf(e, ttl, negTtl)
  }

  /** The entry under `key` becomes the most recent one, unless it has expired. */
  function LookedUp(entries: seq<Entry>, key: string, ttl: nat, negTtl: nat, now: int): seq<Entry> {
    match Find(entries, key)
    case None => entries
    case Some(e) => if Expired(e, ttl, negTtl, now) then entries else Remove(entries, key) + [e]
  }

  predicate UniqueKeys(entries: seq<Entry>) {
    forall i, j :: 0 <= i < j < |entries| ==> entries[i].key != entries[j].key
  }

  lemma TotalAppend(a: seq<Entry>, b: seq<Entry>)
    ensures Total(a + b) == Total(a) + Total(b)
  {
    if a == [] {
      assert a + b == b;
    } else {
      assert (a + b)[1..] == a[1..] + b;
      TotalAppend(a[1..], b);
    }
  }

  lemma RemoveAppend(a: seq<Entry>, b: seq<Entry>, key: string)
    ensures Remove(a + b, key) == Remove(a, key) + Remove(b, key)
  {
    if a == [] {
      assert a + b == b;
    } else {
      assert (a + b)[1..] == a[1..] + b;
      RemoveAppend(a[1..], b, key);
    }
  }

  lemma FindAppend(a: seq<Entry>, b: seq<Entry>, key: string)
    ensures Find(a + b, key) == if Find(a, key).Some? then Find(a, key) else Find(b, key)
  {
    if a == [] {
      assert a + b == b;
    } else {
      assert (a + b)[1..] == a[1..] + b;
      FindAppend(a[1..], b, key);
    }
  }

  /** With unique keys, removing a key removes one entry from its place. */
  lemma RemoveIsWithout(entries: seq<Entry>, i: nat)
    requires UniqueKeys(entries) && i < |entries|
    ensures Remove(entries, entries[i].key) == entries[..i] + entries[i + 1..]
    ensures Total(entries) == Total(entries[..i] + entries[i + 1..]) + entries[i].size
    ensures Find(entries, entries[i].key) == Some(entries[i])
  {
    hide *;
    var a, e, b := entries[..i], entries[i], entries[i + 1..];
    assert entries == a + ([e] + b);
    Elsewhere(entries, i);
    RemoveAppend(a, [e] + b, e.key);
    RemoveAbsent(a, e.key);
    RemoveAbsent(b, e.key);
    FindAppend(a, [e] + b, e.key);
    TotalAppend(a, [e] + b);
    TotalAppend(a, b);
    HeadOf(e, b);
  }

  lemma Elsewhere(entries: seq<Entry>, i: nat)
    requires UniqueKeys(entries) && i < |entries|
    ensures forall e :: e in entries[..i] || e in entries[i + 1..] ==> e.key != entries[i].key
    ensures Find(entries[..i], entries[i].key) == None
  {
  }

  lemma HeadOf(e: Entry, b: seq<Entry>)
    ensures Remove([e] + b, e.key) == Remove(b, e.key)
    ensures Find([e] + b, e.key) == Some(e)
    ensures Total([e] + b) == e.size + Total(b)
    ensures b == [] ==> Total([e] + b) == e.size
  {
    assert ([e] + b)[1..] == b;
  }

  lemma RemoveAbsent(entries: seq<Entry>, key: string)
    requires forall e :: e in entries ==> e.key != key
    ensures Remove(entries, key) == entries
  {
    if entries != [] {
      assert entries[0] in entries;
      RemoveAbsent(entries[1..], key);
    }
  }

  // --------------------------------------------------------------- the data structure

  ghost function EntryOf(n: Node): Entry {
    Entry(n.key, n.value, n.created, n.allocSize)
  }

  ghost function Contents(nodes: seq<Node>): (es: seq<Entry>)
    ensures |es| == |nodes|
    ensures forall i :: 0 <= i < |nodes| ==> es[i] == EntryOf(nodes[i])
  {
    seq(|nodes|, i requires 0 <= i < |nodes| => EntryOf(nodes[i]))
  }

  /** The hash table holds exactly the nodes of the list, each under its own key. */
  ghost predicate Indexed(hash: map<string, Node>, nodes: seq<Node>) {
    && (forall i :: 0 <= i < |nodes| ==> nodes[i].key in hash && hash[nodes[i].key] == nodes[i])
    && (forall k :: k in hash ==> hash[k] in nodes && hash[k].key == k)
  }

  lemma IndexedUnique(hash: map<string, Node>, nodes: seq<Node>)
    requires Indexed(hash, nodes) && Distinct(nodes)
    ensures UniqueKeys(Contents(nodes))
  {
  }

  lemma ContentsWithout(nodes: seq<Node>, i: nat)
    requires i < |nodes|
    ensures Contents(Without(nodes, i)) == Contents(nodes)[..i] + Contents(nodes)[i + 1..]
  {
  }

  lemma StillIndexed(hash: map<string, Node>, nodes: seq<Node>, i: nat)
    requires Indexed(hash, nodes) && Distinct(nodes) && i < |nodes|
    ensures Indexed(hash - {nodes[i].key}, Without(nodes, i))
  {
    var rest := Without(nodes, i);
    forall k | k in hash && k != nodes[i].key
      ensures hash[k] in rest
    {
      var j :| 0 <= j < |nodes| && nodes[j] == hash[k];
      assert rest[if j < i then j else j - 1] == nodes[j];
    }
  }

  /** A node goes from the hash table, the contents and the total. */
  lemma Gone(hash: map<string, Node>, nodes: seq<Node>, i: nat)
    requires Indexed(hash, nodes) && Distinct(nodes) && i < |nodes|
    ensures Indexed(hash - {nodes[i].key}, Without(nodes, i))
    ensures Contents(Without(nodes, i)) == Remove(Contents(nodes), nodes[i].key)
    ensures Total(Contents(Without(nodes, i))) + nodes[i].allocSize == Total(Contents(nodes))
  {
    hide Indexed, Distinct, UniqueKeys, Remove, Total, Without;
    IndexedUnique(hash, nodes);
    RemoveIsWithout(Contents(nodes), i);
    ContentsWithout(nodes, i);
    StillIndexed(hash, nodes, i);
  }

  /** Moving a node to the end of the list keeps it indexed and keeps the total. */
  lemma Moved(hash: map<string, Node>, nodes: seq<Node>, i: nat)
    requires Indexed(hash, nodes) && Distinct(nodes) && i < |nodes|
    ensures Indexed(hash, Without(nodes, i) + [nodes[i]])
    ensures Contents(Without(nodes, i) + [nodes[i]]) == Remove(Contents(nodes), nodes[i].key) + [EntryOf(nodes[i])]
    ensures Total(Contents(Without(nodes, i) + [nodes[i]])) == Total(Contents(nodes))
  {
    hide Indexed, Distinct, UniqueKeys, Remove, Total, Find;
    IndexedUnique(hash, nodes);
    RemoveIsWithout(Contents(nodes), i);
    ContentsWithout(nodes, i);
    MovedIndex(hash, nodes, i);
    var e, rest := EntryOf(nodes[i]), Contents(Without(nodes, i));
    assert Contents(Without(nodes, i) + [nodes[i]]) == rest + [e];
    TotalAppend(rest, [e]);
    HeadOf(e, []);
    assert [e] + [] == [e];
  }

  lemma MovedIndex(hash: map<string, Node>, nodes: seq<Node>, i: nat)
    requires Indexed(hash, nodes) && i < |nodes|
    ensures Indexed(hash, Without(nodes, i) + [nodes[i]])
  {
    var moved := Without(nodes, i) + [nodes[i]];
    forall k | k in hash
      ensures hash[k] in moved
    {
      var j :| 0 <= j < |nodes| && nodes[j] == hash[k];
      assert moved[if j < i then j else if j == i then |nodes| - 1 else j - 1] == nodes[j];
    }
  }

  lemma Added(hash: map<string, Node>, nodes: seq<Node>, n: Node)
    requires Indexed(hash, nodes) && n.key !in hash
    ensures Indexed(hash[n.key := n], nodes + [n])
    ensures Contents(nodes + [n]) == Contents(nodes) + [EntryOf(n)]
    ensures Total(Contents(nodes + [n])) == Total(Contents(nodes)) + n.allocSize
  {
    var after := nodes + [n];
    assert after[|nodes|] == n;
    forall k | k in hash
      ensures hash[k] in after
    {
      var j :| 0 <= j < |nodes| && nodes[j] == hash[k];
      assert after[j] == nodes[j];
    }
    assert Contents(after) == Contents(nodes) + [EntryOf(n)];
    TotalAppend(Contents(nodes), [EntryOf(n)]);
    assert Total([EntryOf(n)]) == n.allocSize;
  }

  lemma LookupAgrees(hash: map<string, Node>, nodes: seq<Node>, key: string)
    requires Indexed(hash, nodes) && Distinct(nodes)
    ensures Find(Contents(nodes), key) == if key in hash then Some(EntryOf(hash[key])) else None
    ensures key in hash ==> hash[key] in nodes
  {
    IndexedUnique(hash, nodes);
    if key in hash {
      var i :| 0 <= i < |nodes| && nodes[i] == hash[key];
      RemoveIsWithout(Contents(nodes), i);
    } else {
      assert forall i :: 0 <= i < |nodes| ==> nodes[i].key != key;
    }
  }

  lemma KeyOf(hash: map<string, Node>, nodes: seq<Node>, key: string)
    requires Indexed(hash, nodes) && key in hash
    ensures hash[key].key == key && hash[key] in nodes
  {
  }

  lemma CountNodes(hash: map<string, Node>, nodes: seq<Node>)
    requires Indexed(hash, nodes) && Distinct(nodes)
    ensures |hash| == |nodes|
  {
    if nodes == [] {
      assert hash.Keys == {};
    } else {
      StillIndexed(hash, nodes, 0);
      var rest := hash - {nodes[0].key};
      assert rest.Keys == hash.Keys - {nodes[0].key};
      CountNodes(rest, Without(nodes, 0));
    }
  }

  // ------------------------------------------------------------- removing by user

  function DropDigits(s: string): string {
    if s != [] && '0' <= s[0] <= '9' then DropDigits(s[1..]) else s
  }

  function DropToTab(s: string): string {
    if s != [] && s[0] != '\t' then DropToTab(s[1..]) else s
  }

  /** The key is "P" or "U", an id, optionally "+" and a master user, and a tab, followed by exactly `user` up to the
      next tab or the end. */
  predicate IsUser(key: string, user: string) {
    if key == [] || (key[0] != 'P' && key[0] != 'U') then false
    else
      var d := DropDigits(key[1..]);
      var t := if d != [] && d[0] == '+' then DropToTab(d) else d;
      t != [] && t[0] == '\t' && user <= t[1..] && (|t| == |user| + 1 || t[|user| + 1] == '\t')
  }

  predicate IsAnyUser(key: string, users: seq<string>) {
    exists u :: u in users && IsUser(key, u)
  }

  function OfOthers(entries: seq<Entry>, users: seq<string>): seq<Entry> {
    if entries == [] then []
    else OfOthers(entries[..|entries| - 1], users)
         + (if IsAnyUser(entries[|entries| - 1].key, users) then [] else [entries[|entries| - 1]])
  }

  /** `auth_cache_node_is_user` */
  method NodeIsUser(key: string, user: string) returns (yes: bool)
    ensures yes == IsUser(key, user)
  {
    var data := key;
    if data == [] || (data[0] != 'P' && data[0] != 'U') {
      return false;
    }
    data := data[1..];
    while data != [] && '0' <= data[0] <= '9'
      invariant DropDigits(data) == DropDigits(key[1..])
      decreases |data|
    {
      data := data[1..];
    }
    if data != [] && data[0] == '+' {
      while data != [] && data[0] != '\t'
        invariant DropToTab(data) == DropToTab(DropDigits(key[1..]))
        decreases |data|
      {
        data := data[1..];
      }
    }
    if data == [] || data[0] != '\t' {
      return false;
    }
    data := data[1..];
    return user <= data && (|data| == |user| || data[|user|] == '\t');
  }

  /** `auth_cache_node_is_one_of_users` */
  method IsOneOf(key: string, users: seq<string>) returns (yes: bool)
    ensures yes == IsAnyUser(key, users)
  {
    for i := 0 to |users|
      invariant forall j :: 0 <= j < i ==> !IsUser(key, users[j])
    {
      var one := NodeIsUser(key, users[i]);
      if one {
        return true;
      }
    }
    return false;
  }

  lemma OthersStep(nodes: seq<Node>, i: nat, users: seq<string>)
    requires i < |nodes|
    ensures OfOthers(Contents(nodes)[..i + 1], users)
            == OfOthers(Contents(nodes)[..i], users)
               + (if IsAnyUser(nodes[i].key, users) then [] else [EntryOf(nodes[i])])
  {
    assert Contents(nodes)[..i + 1][..i] == Contents(nodes)[..i];
  }

  ghost function KeptAfter(kept: seq<Node>, n: Node, removed: bool): seq<Node> {
    if removed then kept else kept + [n]
  }

  /** The list while the scan over `all` is at position `i`: `kept` is what it left of the nodes before. */
  ghost function Scanning(kept: seq<Node>, all: seq<Node>, i: nat): seq<Node>
    requires i <= |all|
  {
    kept + all[i..]
  }

  lemma ScanEnds(kept: seq<Node>, all: seq<Node>, users: seq<string>)
    ensures Scanning([], all, 0) == all && Scanning(kept, all, |all|) == kept
    ensures Contents([]) == OfOthers(Contents(all)[..0], users) && Contents(all)[..|all|] == Contents(all)
  {
  }

  lemma Scanned(kept: seq<Node>, all: seq<Node>, i: nat, users: seq<string>)
    requires i < |all| && Contents(kept) == OfOthers(Contents(all)[..i], users)
    ensures var nodes := Scanning(kept, all, i);
            var removed := IsAnyUser(all[i].key, users);
            var kept' := KeptAfter(kept, all[i], removed);
            && |nodes| == |kept| + |all| - i && nodes[|kept|] == all[i]
            && (i + 1 < |all| ==> nodes[|kept| + 1] == all[i + 1])
            && Scanning(kept', all, i + 1) == (if removed then Without(nodes, |kept|) else nodes)
            && Contents(kept') == OfOthers(Contents(all)[..i + 1], users)
            && NodeSet(Scanning(kept', all, i + 1)) <= NodeSet(nodes)
            && |kept'| == |kept| + (if removed then 0 else 1)
  {
    hide Contents, OfOthers, IsAnyUser;
    OthersStep(all, i, users);
    ContentsSnoc(kept, all[i]);
    var nodes := kept + all[i..];
    assert Without(nodes, |kept|) == kept + all[i + 1..];
    assert nodes == kept + [all[i]] + all[i + 1..];
  }

  lemma ContentsSnoc(nodes: seq<Node>, n: Node)
    ensures Contents(nodes + [n]) == Contents(nodes) + [EntryOf(n)]
  {
  }

  /** `alloc_size` of an entry: both strings with their terminating NULs and the node around them. */
  function AllocSize(key: string, value: string): nat {
    NODE_OVERHEAD + |key| + 1 + |value| + 1
  }

  class Cache {
    var hash: map<string, Node>
    var head: Node?
    var tail: Node?
    var sizeLeft: nat
    const maxSize: nat
    const ttl: nat
    const negTtl: nat
    ghost var nodes: seq<Node>

    constructor (maxSize: nat, ttl: nat, negTtl: nat)
      ensures Valid() && nodes == [] && this.maxSize == maxSize && this.ttl == ttl && this.negTtl == negTtl
    {
      this.maxSize, this.ttl, this.negTtl, sizeLeft := maxSize, ttl, negTtl, maxSize;
      hash, head, tail, nodes := map[], null, null, [];
    }

    ghost predicate Valid()
      reads this, nodes
    {
      && List()
      && Indexed(hash, nodes)
      && sizeLeft + Total(Contents(nodes)) == maxSize
    }

    ghost predicate List()
      reads this, nodes
    {
      Chain(nodes, tail, head)
    }

    lemma Ends()
      requires List()
      ensures Distinct(nodes) && tail == if nodes == [] then null else nodes[0]
    {
      hide Distinct, Linked;
    }

    lemma Accounting()
      requires Valid()
      ensures List() && sizeLeft + Total(Contents(nodes)) == maxSize && (nodes == [] ==> sizeLeft == maxSize)
    {
      hide Chain, Indexed, Contents;
    }

    /** The pointers of `auth_cache_node_unlink`. */
    method Bypass(node: Node, ghost i: nat)
      requires List() && i < |nodes| && nodes[i] == node
      modifies this`head, this`tail, NodeSet(nodes)
      ensures Bypassed(nodes, i)
      ensures tail == if i > 0 then nodes[0] else if |nodes| > 1 then nodes[1] else null
      ensures head == if i < |nodes| - 1 then nodes[|nodes| - 1] else if |nodes| > 1 then nodes[|nodes| - 2] else null
    {
      hide Distinct;
      Neighbours(nodes, i);
      if node.prev != null {
        node.prev.next := node.next;
      } else {
        tail := node.next;
      }
      if node.next != null {
        node.next.prev := node.prev;
      } else {
        head := node.prev;
      }
    }

    method Unlink(node: Node, ghost i: nat)
      requires List() && i < |nodes| && nodes[i] == node
      modifies this`head, this`tail, this`nodes, NodeSet(nodes)
      ensures List() && nodes == Without(old(nodes), i)
    {
      hide Distinct, Linked, Without, Bypassed;
      StillDistinct(nodes, i);
      WithoutEnds(nodes, i);
      Bypass(node, i);
      BypassedLinks(nodes, i);
      nodes := Without(nodes, i);
    }

    method LinkHead(node: Node)
      requires List() && node !in nodes
      modifies this`head, this`tail, this`nodes, NodeSet(nodes), node
      ensures List() && nodes == old(nodes) + [node]
      ensures node.lastSuccess == old(node.lastSuccess)
    {
      node.prev := head;
      node.next := null;
      head := node;
      if node.prev != null {
        node.prev.next := node;
      } else {
        tail := node;
      }
      nodes := nodes + [node];
    }

    /** `auth_cache_node_destroy` */
    method Destroy(node: Node, ghost i: nat)
      requires Valid() && i < |nodes| && nodes[i] == node
      modifies this`head, this`tail, this`nodes, this`sizeLeft, this`hash, NodeSet(nodes)
      ensures Valid() && nodes == Without(old(nodes), i)
      ensures Contents(nodes) == Remove(Contents(old(nodes)), node.key)
      ensures sizeLeft == old(sizeLeft) + node.allocSize && hash == old(hash) - {node.key}
    {
      hide Chain, Distinct, Indexed, Remove, Total, Contents, Without;
      Ends();
      Gone(hash, nodes, i);
      Unlink(node, i);
      sizeLeft := sizeLeft + node.allocSize;
      hash := hash - {node.key};
    }

    method DestroyAll()
      requires Valid()
      modifies this, NodeSet(nodes)
      ensures Valid() && nodes == []
    {
      hide Valid, Contents, Total, Remove, Without;
      Accounting();
      Ends();
      ghost var gone := 0;
      while tail != null
        invariant Valid() && gone <= |old(nodes)| && nodes == old(nodes)[gone..]
        invariant tail == if nodes == [] then null else nodes[0]
        decreases |nodes|
      {
        assert Without(nodes, 0) == nodes[1..] by {
          WithoutFirst(nodes);
        }
        Destroy(tail, 0);
        Accounting();
        Ends();
        gone := gone + 1;
      }
    }

    /** `auth_cache_clear`: returns how many entries there were. */
    method Clear() returns (count: nat)
      requires Valid()
      modifies this, NodeSet(nodes)
      ensures Valid() && nodes == [] && hash == map[] && sizeLeft == maxSize && count == |old(nodes)|
    {
      hide Chain, Indexed, Distinct, Contents, Total;
      count := |hash|;
      Ends();
      CountNodes(hash, nodes);
      DestroyAll();
      Ends();
      Accounting();
      CountNodes(hash, nodes);
      assert hash == map[];
      hash := map[];
    }

    /**
     `auth_cache_lookup`: the value cached under the expanded key, whether it is too old to be used, and whether it
     is older than the TTL of negative entries.  Only an entry that is not too old becomes the most recent one.
     */
    method Lookup(key: string, now: int) returns (value: Option<string>, expired: bool, negExpired: bool)
      requires Valid()
      modifies this`head, this`tail, this`nodes, NodeSet(nodes)
      ensures Valid() && Contents(nodes) == LookedUp(Contents(old(nodes)), key, ttl, negTtl, now)
      ensures NodeSet(nodes) <= NodeSet(old(nodes))
      ensures match Find(Contents(old(nodes)), key)
              case None => value == None && !expired && !negExpired
              case Some(e) =>
                && value == Some(e.value) && (negExpired <==> now - e.created > negTtl)
                && (expired <==> now - e.created > if e.value == "" then negTtl else ttl)
                && Contents(nodes) == if expired then Contents(old(nodes)) else Remove(Contents(old(nodes)), key) + [e]
    {
      hide Linked, Distinct, Indexed, Total, UniqueKeys;
      LookupAgrees(hash, nodes, key);
      if key !in hash {
        return None, false, false;
      }
      var node := hash[key];
      value, expired := Some(node.value), false;
      var ttlSecs := if node.value == "" then negTtl else ttl;
      if node.created < now - ttlSecs {
        expired := true;
      } else {
        MoveToHead(node);
      }
      negExpired := node.created < now - negTtl;
    }

    /** The list part of a hit. */
    method Relink(node: Node, ghost i: nat)
      requires List() && i < |nodes| && nodes[i] == node
      modifies this`head, this`tail, this`nodes, NodeSet(nodes)
      ensures List() && nodes == Without(old(nodes), i) + [node]
    {
      if node == head {
        assert i == |nodes| - 1;
        assert Without(nodes, i) + [node] == nodes;
        return;
      }
      assert node !in Without(nodes, i);
      hide Linked, Distinct;
      Unlink(node, i);
      LinkHead(node);
    }

    method MoveToHead(node: Node)
      requires Valid() && node in nodes
      modifies this`head, this`tail, this`nodes, NodeSet(nodes)
      ensures Valid() && Contents(nodes) == Remove(Contents(old(nodes)), node.key) + [EntryOf(node)]
      ensures NodeSet(nodes) <= NodeSet(old(nodes))
    {
      hide Linked, Distinct, Indexed, Total, UniqueKeys, Remove, Contents;
      ghost var i :| 0 <= i < |nodes| && nodes[i] == node;
      Moved(hash, nodes, i);
      hide Chain;
      Relink(node, i);
    }

    method DestroyOldest()
      requires Valid() && nodes != []
      modifies this`head, this`tail, this`nodes, this`sizeLeft, this`hash, NodeSet(nodes)
      ensures Valid() && nodes == old(nodes)[1..]
      ensures Contents(nodes) == Contents(old(nodes))[1..] && sizeLeft == old(sizeLeft) + Contents(old(nodes))[0].size
    {
      hide Linked, Indexed, Distinct, Remove, Total, Contents;
      ContentsWithout(nodes, 0);
      assert Without(nodes, 0) == nodes[1..];
      assert Contents(nodes)[..0] + Contents(nodes)[1..] == Contents(nodes)[1..];
      Destroy(tail, 0);
    }

    /** Destroy the oldest entries until `need` bytes are left or nothing is. */
    method MakeRoom(need: nat) returns (ghost gone: nat)
      requires Valid()
      modifies this, NodeSet(nodes)
      ensures Valid() && Contents(nodes) == Evict(Contents(old(nodes)), old(sizeLeft), need)
      ensures sizeLeft >= need || (nodes == [] && sizeLeft == maxSize)
      ensures gone <= |old(nodes)| && nodes == old(nodes)[gone..] && NodeSet(nodes) <= NodeSet(old(nodes))
    {
      hide Valid, Contents, Evict, NodeSet;
      gone := 0;
      Accounting();
      Ends();
      while sizeLeft < need && tail != null
        invariant tail == if nodes == [] then null else nodes[0]
        invariant Valid() && gone <= |old(nodes)| && nodes == old(nodes)[gone..]
        invariant NodeSet(nodes) <= NodeSet(old(nodes))
        invariant Evict(Contents(nodes), sizeLeft, need) == Evict(Contents(old(nodes)), old(sizeLeft), need)
        decreases |nodes|
      {
        EvictOldest(Contents(nodes), sizeLeft, need);
        FewerNodes(nodes, 1);
        DestroyOldest();
        Accounting();
        Ends();
        gone := gone + 1;
      }
      Accounting();
      EvictNone(Contents(nodes), sizeLeft, need);
    }

    /** `auth_cache_remove` */
    method RemoveKey(key: string) returns (ghost i: nat)
      requires Valid()
      modifies this, NodeSet(nodes)
      ensures Valid() && Contents(nodes) == Remove(Contents(old(nodes)), key) && key !in hash
      ensures sizeLeft >= old(sizeLeft)
      ensures i <= |old(nodes)| && nodes == if i < |old(nodes)| then Without(old(nodes), i) else old(nodes)
      ensures NodeSet(nodes) <= NodeSet(old(nodes))
    {
      hide Chain, Distinct, Indexed, Total, Contents, Find, Remove, Without, NodeSet;
      Ends();
      LookupAgrees(hash, nodes, key);
      if key !in hash {
        RemoveAbsent(Contents(nodes), key);
        return |nodes|;
      }
      i :| 0 <= i < |nodes| && nodes[i] == hash[key];
      FewerNodes(nodes, i);
      assert hash[key].key == key by {
        KeyOf(hash, nodes, key);
      }
      Destroy(hash[key], i);
    }

    /**
     The last steps of `auth_cache_insert`, once there is room and the key is free.  The node keeps only 31 bits of
     its size and the subtraction wraps, so the accounting survives exactly when the entry fits both.
     */
    method AddNode(key: string, value: string, now: int, allocSize: nat, lastSuccess: bool)
      requires Valid() && key !in hash && allocSize < SIZE_RANGE && maxSize < SIZE_RANGE
      requires sizeLeft >= allocSize || (nodes == [] && sizeLeft == maxSize)
      modifies this, NodeSet(nodes)
      ensures Contents(nodes) == Contents(old(nodes)) + [Entry(key, value, now, allocSize % ALLOC_RANGE)]
      ensures Valid() <==> allocSize <= maxSize && allocSize < ALLOC_RANGE
      ensures key in hash && hash[key].lastSuccess == lastSuccess
      ensures fresh(NodeSet(nodes) - NodeSet(old(nodes)))
    {
      hide Chain, Indexed, Contents, Total;
      var node := new Node(key, value, now, allocSize % ALLOC_RANGE, lastSuccess);
      Added(hash, nodes, node);
      LinkHead(node);
      sizeLeft := (sizeLeft - allocSize) % SIZE_RANGE;
      hash := hash[key := node];
    }

    /** Make room for an entry and forget the one it replaces. */
    method Prepare(key: string, need: nat)
      requires Valid()
      modifies this, NodeSet(nodes)
      ensures Valid() && key !in hash
      ensures Contents(nodes) == Remove(Evict(Contents(old(nodes)), old(sizeLeft), need), key)
      ensures sizeLeft >= need || (nodes == [] && sizeLeft == maxSize)
      ensures NodeSet(nodes) <= NodeSet(old(nodes))
    {
      hide Valid, Contents, Evict, Remove, Total, Without, NodeSet;
      ghost var gone := MakeRoom(need);
      ghost var i := RemoveKey(key);
      Accounting();
    }

    /** `auth_cache_insert` with the expanded key. */
    method Insert(key: string, value: string, now: int, lastSuccess: bool)
      requires Valid() && AllocSize(key, value) < SIZE_RANGE && maxSize < SIZE_RANGE
      modifies this, NodeSet(nodes)
      ensures value == "" && negTtl == 0 ==> Valid() && nodes == old(nodes)
      ensures value != "" || negTtl > 0 ==>
                (Valid() <==> |key| + |value| + 30 <= maxSize && |key| + |value| + 30 < 0x8000_0000)
      ensures (value != "" || negTtl > 0) && Valid() ==>
                Total(Contents(old(nodes))) <= maxSize
                && Contents(nodes)
                   == Inserted(Contents(old(nodes)), maxSize, Entry(key, value, now, 28 + |key| + 1 + |value| + 1))
                && key in hash && hash[key].lastSuccess == lastSuccess
      ensures fresh(NodeSet(nodes) - NodeSet(old(nodes)))
    {
      hide Valid, Contents, Evict, Remove, Total;
      if value == "" && negTtl == 0 {
        return;
      }
      Accounting();
      var allocSize := AllocSize(key, value);
      Prepare(key, allocSize);
      ghost var kept := NodeSet(nodes);
      AddNode(key, value, now, allocSize, lastSuccess);
      assert NodeSet(nodes) - NodeSet(old(nodes)) <= NodeSet(nodes) - kept;
    }

    /** Destroy `node` if it belongs to one of the users, and step to the node after it. */
    method VisitForUsers(node: Node, ghost k: nat, usernames: seq<string>) returns (next: Node?, removed: bool)
      requires Valid() && k < |nodes| && nodes[k] == node
      modifies this, NodeSet(nodes)
      ensures Valid() && removed == IsAnyUser(node.key, usernames)
      ensures nodes == if removed then Without(old(nodes), k) else old(nodes)
      ensures next == if k + 1 < |old(nodes)| then old(nodes)[k + 1] else null
    {
      hide Linked, Indexed, Distinct, Remove, Total, Contents, Without, IsAnyUser;
      NextIs(nodes, k);
      next := node.next;
      removed := IsOneOf(node.key, usernames);
      if removed {
        Destroy(node, k);
      }
    }

    /** `auth_cache_clear_users`: returns how many entries were removed. */
    method ClearUsers(usernames: seq<string>) returns (count: nat)
      requires Valid()
      modifies this, NodeSet(nodes)
      ensures Valid() && Contents(nodes) == OfOthers(Contents(old(nodes)), usernames) && count == |old(nodes)| - |nodes|
      ensures NodeSet(nodes) <= NodeSet(old(nodes))
    {
      hide Valid, Contents, Without, OfOthers, IsAnyUser, KeptAfter, NodeSet, Scanning;
      ScanEnds([], nodes, usernames);
      Accounting();
      Ends();
      count := 0;
      var node := tail;
      ghost var i, kept: seq<Node> := 0, [];
      while node != null
        invariant Valid() && i <= |old(nodes)| && nodes == Scanning(kept, old(nodes), i) && count == i - |kept|
        invariant node == if i < |old(nodes)| then old(nodes)[i] else null
        invariant NodeSet(nodes) <= NodeSet(old(nodes))
        invariant Contents(kept) == OfOthers(Contents(old(nodes))[..i], usernames)
        decreases |old(nodes)| - i
      {
        var current: Node := node;
        Scanned(kept, old(nodes), i, usernames);
        var next, removed := VisitForUsers(current, |kept|, usernames);
        count := count + (if removed then 1 else 0);
        kept := KeptAfter(kept, current, removed);
        node := next;
        i := i + 1;
      }
      ScanEnds(kept, old(nodes), usernames);
    }
  }
}
