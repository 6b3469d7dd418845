/**
 Cache keys (auth-cache.c): the variables of a query are compressed into a tab-separated list, and
 two requests may share a cache entry only if the whole query expands to the same string for both.

 Templates are given as tokens.  A variable of the static table is its index there; any other
 variable, such as %{env:name} or one that does not exist, expands to the same text for every request.
 */
module CacheKey {
  import opened Wrappers
  import AuthCache

  const TAB_COUNT := 30
  const USER := 0
  const USERNAME := 1
  const DOMAIN := 2
  const HOME := 4
  const DB_ID := 9
  const SECURED := 11
  const CERT := 14
  const LOGIN_USER := 15
  const LOGIN_USERNAME := 16
  const LOGIN_DOMAIN := 17
  const DOMAIN_FIRST := 23
  const DOMAIN_LAST := 24
  const MASTER_USER := 25
  const SESSION_PID := 26
  const ORIG_USER := 27
  const ORIG_USERNAME := 28
  const ORIG_DOMAIN := 29
  /** Local and remote addresses, and process ids and ports. */
  const ADDRESSES: set<nat> := {5, 6, 19, 20}
  const NUMBERS: set<nat> := {7, 12, 13, 21, 22}

  /** The variables that `auth_request_get_var_expand_table_full` passes through the escape function. */
  const ESCAPED: set<nat> := {0, 1, 2, 8, 15, 16, 17, 18, 23, 24, 25, 27, 28, 29}

  datatype Variable = Known(index: nat) | Other(name: string)

  /** `Broken` is a "%{}": key building stops there, while query expansion goes on and copies the brace. */
  datatype Token = Text(text: string) | Var(variable: Variable, modifiers: nat) | Broken

  /** What the variables are made of.  `fields` holds those that stand for a field of their own, by their index. */
  datatype Request = Request(userdb: bool, dbId: string, user: string, master: Option<string>, login: Option<string>,
                             orig: Option<string>, fields: seq<string>)

  // ------------------------------------------------------------------ strings

  function UpTo(s: string, c: char): string {
    if s == [] || s[0] == c then [] else [s[0]] + UpTo(s[1..], c)
  }

  function After(s: string, c: char): string {
    if s == [] then [] else if s[0] == c then s[1..] else After(s[1..], c)
  }

  /** What follows the last `@`. */
  function AfterLast(s: string): string {
    if s == [] then [] else if s[0] == '@' && '@' !in s[1..] then s[1..] else AfterLast(s[1..])
  }

  /** `str_tabescape` */
  function TabEscape(s: string): (r: string)
    ensures '\t' !in r
  {
    if s == [] then []
    else (match s[0]
          case '\U{1}' => "\U{1}1"
          case '\t' => "\U{1}t"
          case '\r' => "\U{1}r"
          case '\n' => "\U{1}n"
          case c => [c]) + TabEscape(s[1..])
  }

  /** Tabs, returns, line ends and the escape character itself are written as two characters, and no others. */
  lemma EscapeMeans(c: char, s: string)
    ensures TabEscape("\U{1}" + s) == "\U{1}1" + TabEscape(s) && TabEscape("\t" + s) == "\U{1}t" + TabEscape(s)
    ensures TabEscape("\r" + s) == "\U{1}r" + TabEscape(s) && TabEscape("\n" + s) == "\U{1}n" + TabEscape(s)
    ensures c !in "\U{1}\t\r\n" ==> TabEscape([c] + s) == [c] + TabEscape(s)
  {
    assert ("\U{1}" + s)[1..] == ("\t" + s)[1..] == ("\r" + s)[1..] == ("\n" + s)[1..] == ([c] + s)[1..] == s;
  }

  lemma {:induction false} EscapeInjective(a: string, b: string)
    requires TabEscape(a) == TabEscape(b)
    ensures a == b
  {
    if a == [] || b == [] {
      assert |TabEscape(a)| == 0;
    } else {
      var x, y := TabEscape(a), TabEscape(b);
      assert a[0] == b[0] by {
        assert x[0] == y[0];
        if x[0] == '\U{1}' {
          assert x[1] == y[1];
        }
      }
      var n := if a[0] in {'\U{1}', '\t', '\r', '\n'} then 2 else 1;
      assert x[n..] == TabEscape(a[1..]) && y[n..] == TabEscape(b[1..]);
      EscapeInjective(a[1..], b[1..]);
    }
  }

  function Join(fields: seq<string>): string {
    if fields == [] then "" else if |fields| == 1 then fields[0] else fields[0] + "\t" + Join(fields[1..])
  }

  lemma {:induction false} FirstField(a: string, x: string, b: string, y: string)
    requires '\t' !in a && '\t' !in b && a + "\t" + x == b + "\t" + y
    ensures a == b && x == y
  {
    var l, r := a + "\t" + x, b + "\t" + y;
    assert forall i :: 0 <= i < |a| ==> l[i] != '\t';
    assert forall i :: 0 <= i < |b| ==> r[i] != '\t';
    assert l[|a|] == '\t' && r[|b|] == '\t';
    assert |a| == |b|;
    assert a == l[..|a|] && b == r[..|a|];
    assert x == l[|a| + 1..] && y == r[|a| + 1..];
  }

  lemma {:induction false} JoinInjective(xs: seq<string>, ys: seq<string>)
    requires |xs| == |ys| && Join(xs) == Join(ys)
    requires forall i :: 0 <= i < |xs| ==> xs[i] == ys[i] || ('\t' !in xs[i] && '\t' !in ys[i])
    ensures xs == ys
  {
    if |xs| > 1 {
      if xs[0] == ys[0] {
        assert Join(xs[1..]) == Join(xs)[|xs[0]| + 1..];
        assert Join(ys[1..]) == Join(ys)[|ys[0]| + 1..];
      } else {
        FirstField(xs[0], Join(xs[1..]), ys[0], Join(ys[1..]));
      }
      JoinInjective(xs[1..], ys[1..]);
      assert xs == [xs[0]] + xs[1..] && ys == [ys[0]] + ys[1..];
    }
  }

  // ------------------------------------------------------------- building keys

  /** The known variables that occur before key building stops. */
  function Seen(query: seq<Token>): set<nat> {
    if query == [] || query[0].Broken? then {}
    else (if query[0].Var? && query[0].variable.Known? then {query[0].variable.index} else {}) + Seen(query[1..])
  }

  /** The other variables that occur before key building stops, in order. */
  function Extras(query: seq<Token>): (r: seq<Variable>)
    ensures forall v :: v in r ==> v.Other?
  {
    if query == [] || query[0].Broken? then []
    else (if query[0].Var? && query[0].variable.Other? then [query[0].variable] else []) + Extras(query[1..])
  }

  /** The user name and the domain together stand for the whole user. */
  function Merged(seen: set<nat>): set<nat> {
    if USERNAME in seen && DOMAIN in seen then seen - {USERNAME, DOMAIN} + {USER} else seen
  }

  /** The members of `seen` from `i` on, in ascending order. */
  function Listed(seen: set<nat>, i: nat): (r: seq<Variable>)
    ensures forall v :: v in r ==> v.Known? && v.index in seen && i <= v.index < TAB_COUNT
    ensures forall j :: i <= j < TAB_COUNT && j in seen ==> Known(j) in r
    decreases TAB_COUNT - i
  {
    if i >= TAB_COUNT then [] else (if i in seen then [Known(i)] else []) + Listed(seen, i + 1)
  }

  function KeyOf(query: seq<Token>): seq<Variable> {
    Listed(Merged(Seen(query)), 0) + Extras(query)
  }

  /** The variable occurs, and nothing broken comes before it. */
  ghost predicate Uses(query: seq<Token>, v: Variable) {
    exists i :: 0 <= i < |query| && query[i].Var? && query[i].variable == v && Unbroken(query[..i])
  }

  ghost predicate Unbroken(query: seq<Token>) {
    forall j :: 0 <= j < |query| ==> !query[j].Broken?
  }

  lemma UsesStep(query: seq<Token>, v: Variable)
    requires query != []
    ensures Uses(query, v) <==>
              (query[0].Var? && query[0].variable == v) || (!query[0].Broken? && Uses(query[1..], v))
  {
    if i :| 0 <= i < |query| && query[i].Var? && query[i].variable == v && Unbroken(query[..i]) {
      if i > 0 {
        assert query[1..][i - 1] == query[i];
        var head, tail := query[..i], query[1..][..i - 1];
        assert head[0] == query[0] && forall j :: 0 <= j < |tail| ==> tail[j] == head[j + 1];
      }
    }
    if !query[0].Broken? && Uses(query[1..], v) {
      var i :| 0 <= i < |query| - 1 && query[1..][i].Var? && query[1..][i].variable == v && Unbroken(query[1..][..i]);
      assert query[i + 1] == query[1..][i];
      var head, tail := query[..i + 1], query[1..][..i];
      assert forall j :: 0 < j < |head| ==> head[j] == tail[j - 1];
      assert Unbroken(head);
    }
    if query[0].Var? && query[0].variable == v {
      assert Unbroken(query[..0]);
    }
  }

  lemma {:induction false} ScanMeans(query: seq<Token>, v: Variable)
    ensures v.Known? ==> (v.index in Seen(query) <==> Uses(query, v))
    ensures v.Other? ==> (v in Extras(query) <==> Uses(query, v))
  {
    if query != [] {
      UsesStep(query, v);
      ScanMeans(query[1..], v);
    }
  }

  lemma {:induction false} ListedAscends(seen: set<nat>, i: nat)
    ensures forall j, k :: 0 <= j < k < |Listed(seen, i)| ==> Listed(seen, i)[j].index < Listed(seen, i)[k].index
    decreases TAB_COUNT - i
  {
    if i < TAB_COUNT {
      ListedAscends(seen, i + 1);
      var rest := Listed(seen, i + 1);
      assert forall k :: 0 <= k < |rest| ==> rest[k] in rest;
    }
  }

  /** The key has each known variable of the query once, in the order of the table, with the whole user for its two
      parts, and then the others. */
  lemma KeyMeans(query: seq<Token>)
    requires InTable(query)
    ensures var key, parted := KeyOf(query), Uses(query, Known(1)) && Uses(query, Known(2));
            && (Known(0) in key <==> Uses(query, Known(0)) || parted)
            && (forall i :: i == 1 || i == 2 ==> (Known(i) in key <==> Uses(query, Known(i)) && !parted))
            && (forall i :: 2 < i ==> (Known(i) in key <==> Uses(query, Known(i))))
            && (forall name :: Other(name) in key <==> Uses(query, Other(name)))
    ensures var key := KeyOf(query);
            forall j, k :: 0 <= j < k < |key| && key[k].Known? ==> key[j].Known? && key[j].index < key[k].index
  {
    hide Seen, Extras, Listed, Uses;
    forall v: Variable
      ensures v.Known? ==> (v.index in Seen(query) <==> Uses(query, v)) && (Uses(query, v) ==> v.index < TAB_COUNT)
      ensures v.Other? ==> (v in Extras(query) <==> Uses(query, v))
    {
      ScanMeans(query, v);
      if Uses(query, v) && v.Known? {
        UsedInTable(query, v);
      }
    }
    ListedAscends(Merged(Seen(query)), 0);
    var listed, others := Listed(Merged(Seen(query)), 0), Extras(query);
    assert forall k :: 0 <= k < |listed| ==> listed[k] in listed;
    assert forall k :: 0 <= k < |others| ==> others[k] in others;
  }

  lemma UsedInTable(query: seq<Token>, v: Variable)
    requires InTable(query) && Uses(query, v) && v.Known?
    ensures v.index < 30
  {
    var i :| 0 <= i < |query| && query[i].Var? && query[i].variable == v;
    assert query[i] in query;
  }

  predicate InTable(query: seq<Token>) {
    forall t :: t in query && t.Var? && t.variable.Known? ==> t.variable.index < TAB_COUNT
  }

  method Mark(keySeen: array<bool>, i: nat)
    requires i < keySeen.Length
    modifies keySeen
    ensures ArraySet(keySeen[..]) == ArraySet(old(keySeen[..])) + {i}
  {
    keySeen[i] := true;
  }

  lemma ScanEnd()
    ensures Seen([]) == {} && Extras([]) == []
  {
  }

  lemma ScanStep(query: seq<Token>)
    requires query != []
    ensures query[0].Broken? ==> Seen(query) == {} && Extras(query) == []
    ensures query[0].Var? && query[0].variable.Known? ==>
              Seen(query) == {query[0].variable.index} + Seen(query[1..]) && Extras(query) == Extras(query[1..])
    ensures query[0].Var? && query[0].variable.Other? ==>
              Seen(query) == Seen(query[1..]) && Extras(query) == [query[0].variable] + Extras(query[1..])
    ensures !query[0].Broken? && !query[0].Var? ==>
              Seen(query) == Seen(query[1..]) && Extras(query) == Extras(query[1..])
  {
  }

  /** First loop of `auth_cache_parse_key`: mark the known variables, collect the others. */
  method Scan(query: seq<Token>, keySeen: array<bool>) returns (extra: seq<Variable>)
    requires InTable(query) && keySeen.Length == TAB_COUNT && ArraySet(keySeen[..]) == {}
    modifies keySeen
    ensures ArraySet(keySeen[..]) == Seen(query) && extra == Extras(query)
  {
    hide ArraySet, Seen, Extras;
    ScanEnd();
    extra := [];
    var rest := query;
    while rest != []
      invariant InTable(rest)
      invariant ArraySet(keySeen[..]) + Seen(rest) == Seen(query)
      invariant extra + Extras(rest) == Extras(query)
      decreases |rest|
    {
      var token := rest[0];
      assert token in rest;
      ScanStep(rest);
      if token.Broken? {
        break;
      }
      if token.Var? {
        match token.variable {
          case Other(_) =>
            extra := extra + [token.variable];
          case Known(i) =>
            ghost var seen := ArraySet(keySeen[..]);
            Mark(keySeen, i);
            assert seen + {i} + Seen(rest[1..]) == seen + ({i} + Seen(rest[1..]));
        }
      }
      rest := rest[1..];
    }
  }

  /** %n and %d together are replaced with %u. */
  method MergeUser(keySeen: array<bool>)
    requires keySeen.Length == TAB_COUNT
    modifies keySeen
    ensures ArraySet(keySeen[..]) == Merged(ArraySet(old(keySeen[..])))
  {
    ghost var seen := ArraySet(keySeen[..]);
    assert (keySeen[USERNAME] <==> USERNAME in seen) && (keySeen[DOMAIN] <==> DOMAIN in seen);
    if keySeen[USERNAME] && keySeen[DOMAIN] {
      keySeen[USER] := true;
      keySeen[USERNAME] := false;
      keySeen[DOMAIN] := false;
      assert ArraySet(keySeen[..]) == seen - {USERNAME, DOMAIN} + {USER};
    }
  }

  /** `auth_cache_parse_key` */
  method ParseKey(query: seq<Token>) returns (key: seq<Variable>)
    requires InTable(query)
    ensures key == KeyOf(query)
  {
    hide Listed, Seen, Extras, Merged;
    var keySeen := new bool[TAB_COUNT](_ => false);
    assert ArraySet(keySeen[..]) == {};
    var extra := Scan(query, keySeen);
    MergeUser(keySeen);
    ghost var seen := ArraySet(keySeen[..]);
    key := [];
    var i := 0;
    while i < TAB_COUNT
      invariant forall i :: 0 <= i < TAB_COUNT ==> (keySeen[i] <==> i in seen)
      invariant i <= TAB_COUNT && key + Listed(seen, i) == Listed(seen, 0)
    {
      ListedStep(seen, i);
      if keySeen[i] {
        key := key + [Known(i)];
      }
      i := i + 1;
    }
    ListedEnd(seen);
    key := key + extra;
  }

  ghost function ArraySet(bits: seq<bool>): set<nat> {
    set i | 0 <= i < |bits| && bits[i]
  }

  lemma ListedStep(seen: set<nat>, i: nat)
    requires i < TAB_COUNT
    ensures i in seen ==> Listed(seen, i) == [Known(i)] + Listed(seen, i + 1)
    ensures i !in seen ==> Listed(seen, i) == Listed(seen, i + 1)
  {
  }

  lemma ListedEnd(seen: set<nat>)
    ensures Listed(seen, TAB_COUNT) == []
  {
  }

  // ----------------------------------------------------------------- expansion

  predicate Digits(s: string) {
    forall i :: 0 <= i < |s| ==> '0' <= s[i] <= '9'
  }

  /** An IPv4 or IPv6 address, or nothing. */
  predicate Address(s: string) {
    && (s != "" ==> '.' in s || ':' in s)
    && forall i :: 0 <= i < |s| ==> '0' <= s[i] <= '9' || 'a' <= s[i] <= 'f' || s[i] == ':' || s[i] == '.'
  }

  /** What a field can be. */
  predicate Possible(i: nat, s: string) {
    && (i in NUMBERS ==> s != "" && Digits(s))
    && (i == SESSION_PID ==> Digits(s))
    && (i in ADDRESSES ==> Address(s))
    && (i == SECURED ==> s == "" || s == "secured")
    && (i == CERT ==> s == "" || s == "valid")
    && (i !in ESCAPED ==> '\t' !in s)
  }

  predicate WellFormed(r: Request) {
    && r.user != "" && Digits(r.dbId)
    && |r.fields| == TAB_COUNT && forall i :: 0 <= i < TAB_COUNT ==> Possible(i, r.fields[i])
  }

  function OrEmpty(s: Option<string>): string {
    if s.Some? then s.value else ""
  }

  /** The user that variable `i` is a part of. */
  function WholeUser(r: Request, i: nat): string {
    if i in {LOGIN_USER, LOGIN_USERNAME, LOGIN_DOMAIN} then OrEmpty(r.login)
    else if i in {ORIG_USER, ORIG_USERNAME, ORIG_DOMAIN} && r.orig.Some? then r.orig.value
    else r.user
  }

  /** `auth_request_get_var_expand_table_full` before escaping; a missing value expands to nothing. */
  function Value(r: Request, i: nat): string
    requires |r.fields| == TAB_COUNT && i < TAB_COUNT
  {
    if i in {USER, LOGIN_USER, ORIG_USER} then WholeUser(r, i)
    else if i in {USERNAME, LOGIN_USERNAME, ORIG_USERNAME} then UpTo(WholeUser(r, i), '@')
    else if i in {DOMAIN, LOGIN_DOMAIN, ORIG_DOMAIN} then After(WholeUser(r, i), '@')
    else if i == DOMAIN_FIRST then UpTo(After(r.user, '@'), '@')
    else if i == DOMAIN_LAST then AfterLast(r.user)
    else if i == HOME then ""
    else if i == DB_ID then r.dbId
    else if i == MASTER_USER then OrEmpty(r.master)
    else r.fields[i]
  }

  predicate SameDb(r: Request, q: Request) {
    r.userdb == q.userdb && r.dbId == q.dbId
  }

  /** What a key variable expands to. */
  function KeyValue(r: Request, v: Variable, other: string -> string): string
    requires |r.fields| == TAB_COUNT
  {
    match v
    case Known(i) => if i >= TAB_COUNT then "" else if i in ESCAPED then TabEscape(Value(r, i)) else Value(r, i)
    case Other(name) => other(name)
  }

  function KeyFields(r: Request, key: seq<Variable>, other: string -> string): (f: seq<string>)
    requires |r.fields| == TAB_COUNT
    ensures |f| == |key| && forall i :: 0 <= i < |key| ==> f[i] == KeyValue(r, key[i], other)
  {
    seq(|key|, i requires 0 <= i < |key| => KeyValue(r, key[i], other))
  }

  /** The part of the expanded key before the first tab: the kind and id of the database, and the master user. */
  function Prefix(r: Request): string {
    (if r.userdb then "U" else "P") + r.dbId + (if r.master.Some? then "+" + TabEscape(r.master.value) else "")
  }

  /** `auth_request_expand_cache_key` */
  function ExpandKey(r: Request, key: seq<Variable>, other: string -> string): string
    requires |r.fields| == TAB_COUNT
  {
    Prefix(r) + "\t" + Join(KeyFields(r, key, other))
  }

  /** The query itself: `render` is whatever escaping and modifiers the query applies to a variable. */
  function ExpandQuery(r: Request, query: seq<Token>, other: string -> string,
                       render: (Variable, nat, string) -> string): string
    requires |r.fields| == TAB_COUNT
  {
    if query == [] then ""
    else (match query[0]
          case Text(t) => t
          case Broken => "}"
          case Var(v, m) =>
            render(v, m, match v
                         case Known(i) => if i < TAB_COUNT then Value(r, i) else ""
                         case Other(name) => other(name)))
         + ExpandQuery(r, query[1..], other, render)
  }

  // ----------------------------------------------------------------- soundness

  /** The variables that are made of nothing but variable `i`. */
  function Parts(i: nat): set<nat> {
    if i == USER then {USERNAME, DOMAIN, DOMAIN_FIRST, DOMAIN_LAST}
    else if i == DOMAIN then {DOMAIN_FIRST, DOMAIN_LAST}
    else if i == LOGIN_USER then {LOGIN_USERNAME, LOGIN_DOMAIN}
    else if i == ORIG_USER then {ORIG_USERNAME, ORIG_DOMAIN}
    else {}
  }

  /** The variables whose value the expanded key fixes. */
  predicate Determined(i: nat, query: seq<Token>) {
    var key := Merged(Seen(query));
    i in key || i in {HOME, DB_ID, MASTER_USER} || exists j :: j in key && i in Parts(j)
  }

  /** Every variable of the query, also behind a broken one, is fixed by the key. */
  predicate Covered(query: seq<Token>) {
    forall t :: t in query && t.Var? && t.variable.Known? ==> Determined(t.variable.index, query)
  }

  lemma NoTab(r: Request, i: nat)
    requires WellFormed(r) && i < TAB_COUNT && i !in ESCAPED
    ensures '\t' !in Value(r, i)
  {
    assert Possible(i, r.fields[i]);
  }

  lemma EqualFields(r: Request, q: Request, key: seq<Variable>, other: string -> string)
    requires WellFormed(r) && WellFormed(q) && SameDb(r, q)
    requires ExpandKey(r, key, other) == ExpandKey(q, key, other)
    ensures KeyFields(r, key, other) == KeyFields(q, key, other)
    ensures r.master == q.master
  {
    hide TabEscape, Value;
    forall k | 0 <= k < |key|
      ensures KeyValue(r, key[k], other) == KeyValue(q, key[k], other)
              || ('\t' !in KeyValue(r, key[k], other) && '\t' !in KeyValue(q, key[k], other))
    {
      if key[k].Known? && key[k].index < TAB_COUNT && key[k].index !in ESCAPED {
        NoTab(r, key[k].index);
        NoTab(q, key[k].index);
      }
    }
    FirstField(Prefix(r), Join(KeyFields(r, key, other)), Prefix(q), Join(KeyFields(q, key, other)));
    JoinInjective(KeyFields(r, key, other), KeyFields(q, key, other));
    var a := if r.master.Some? then "+" + TabEscape(r.master.value) else "";
    var b := if q.master.Some? then "+" + TabEscape(q.master.value) else "";
    assert a == Prefix(r)[1 + |r.dbId|..] && b == Prefix(q)[1 + |q.dbId|..];
    if r.master.Some? && q.master.Some? {
      assert a[1..] == TabEscape(r.master.value) && b[1..] == TabEscape(q.master.value);
      EscapeInjective(r.master.value, q.master.value);
    }
  }

  /** The part before the first tab: `U` or `P`, the id, and the master user behind a plus sign. */
  lemma KeyBegins(r: Request, key: seq<Variable>, other: string -> string)
    requires |r.fields| == TAB_COUNT
    ensures r.master.None? ==>
              ExpandKey(r, key, other)
              == [if r.userdb then 'U' else 'P'] + r.dbId + "\t" + Join(KeyFields(r, key, other))
    ensures r.master.Some? ==>
              ExpandKey(r, key, other)
              == [if r.userdb then 'U' else 'P'] + r.dbId + "+" + TabEscape(r.master.value) + "\t"
                 + Join(KeyFields(r, key, other))
  {
    hide TabEscape, Join, KeyFields;
    if r.master.Some? {
      var kind, master := [if r.userdb then 'U' else 'P'], TabEscape(r.master.value);
      assert kind + r.dbId + ("+" + master) == kind + r.dbId + "+" + master;
    } else {
      assert Prefix(r) == [if r.userdb then 'U' else 'P'] + r.dbId;
    }
  }

  lemma {:induction false} DigitsDropped(id: string, rest: string)
    requires (forall i :: 0 <= i < |id| ==> '0' <= id[i] <= '9') && rest != [] && !('0' <= rest[0] <= '9')
    ensures AuthCache.DropDigits(id + rest) == rest
  {
    if id == [] {
      assert id + rest == rest;
    } else {
      assert (id + rest)[1..] == id[1..] + rest;
      DigitsDropped(id[1..], rest);
    }
  }

  /** A key belongs to one database: it tells userdb from passdb, and their ids. */
  lemma KeyNamesDb(r: Request, q: Request, key: seq<Variable>, other: string -> string)
    requires WellFormed(r) && WellFormed(q) && ExpandKey(r, key, other) == ExpandKey(q, key, other)
    ensures SameDb(r, q)
  {
    IdInKey(r, key, other);
    IdInKey(q, key, other);
    hide ExpandKey, AuthCache.DropDigits, Possible;
    var text := ExpandKey(r, key, other);
    assert r.dbId == text[1..|text| - |AuthCache.DropDigits(text[1..])|];
  }

  lemma IdInKey(r: Request, key: seq<Variable>, other: string -> string)
    requires WellFormed(r)
    ensures var text := ExpandKey(r, key, other);
            && text != [] && text[0] == (if r.userdb then 'U' else 'P')
            && |AuthCache.DropDigits(text[1..])| < |text|
            && r.dbId == text[1..|text| - |AuthCache.DropDigits(text[1..])|]
  {
    hide TabEscape, Join, KeyFields, AuthCache.DropDigits, Possible;
    var master := if r.master.Some? then "+" + TabEscape(r.master.value) else "";
    var rest := master + "\t" + Join(KeyFields(r, key, other));
    var text := ExpandKey(r, key, other);
    assert text == [if r.userdb then 'U' else 'P'] + r.dbId + rest;
    assert text[1..] == r.dbId + rest;
    DigitsDropped(r.dbId, rest);
  }

  lemma {:induction false} LastOfDomain(user: string)
    ensures var domain := After(user, '@');
            AfterLast(user) == if '@' in domain then AfterLast(domain) else domain
  {
    if user != [] && user[0] != '@' {
      LastOfDomain(user[1..]);
    }
  }

  /** A part is a function of the whole. */
  lemma PartsFollow(r: Request, q: Request, i: nat, j: nat)
    requires |r.fields| == |q.fields| == TAB_COUNT && i < TAB_COUNT && j < TAB_COUNT && i in Parts(j)
    requires Value(r, j) == Value(q, j)
    ensures Value(r, i) == Value(q, i)
  {
    hide UpTo, After, AfterLast;
    LastOfDomain(r.user);
    LastOfDomain(q.user);
  }

  lemma SameValue(r: Request, q: Request, query: seq<Token>, i: nat, other: string -> string)
    requires WellFormed(r) && WellFormed(q) && SameDb(r, q) && i < TAB_COUNT && Determined(i, query)
    requires KeyFields(r, KeyOf(query), other) == KeyFields(q, KeyOf(query), other)
    requires r.master == q.master
    ensures Value(r, i) == Value(q, i)
  {
    hide Seen, Merged, Extras, Listed, TabEscape, Value, Parts;
    var key := Merged(Seen(query));
    if i in {HOME, DB_ID, MASTER_USER} {
      FixedValues(r, q, i);
    } else if i in key {
      KeyFixes(r, q, query, i, other);
    } else {
      var j :| j in key && i in Parts(j);
      WholesInTable(i, j);
      KeyFixes(r, q, query, j, other);
      PartsFollow(r, q, i, j);
    }
  }

  lemma WholesInTable(i: nat, j: nat)
    requires i in Parts(j)
    ensures j < TAB_COUNT
  {
  }

  lemma FixedValues(r: Request, q: Request, i: nat)
    requires |r.fields| == |q.fields| == TAB_COUNT && r.dbId == q.dbId && r.master == q.master
             && i in {HOME, DB_ID, MASTER_USER}
    ensures Value(r, i) == Value(q, i)
  {
  }

  lemma KeyFixes(r: Request, q: Request, query: seq<Token>, i: nat, other: string -> string)
    requires |r.fields| == |q.fields| == TAB_COUNT && i < TAB_COUNT && i in Merged(Seen(query))
    requires KeyFields(r, KeyOf(query), other) == KeyFields(q, KeyOf(query), other)
    ensures Value(r, i) == Value(q, i)
  {
    hide Seen, Merged, Extras, Listed, TabEscape, Value;
    var key := KeyOf(query);
    assert Known(i) in key;
    var k :| 0 <= k < |key| && key[k] == Known(i);
    assert KeyFields(r, key, other)[k] == KeyFields(q, key, other)[k];
    if i in ESCAPED {
      EscapeInjective(Value(r, i), Value(q, i));
    }
  }

  lemma {:induction false} SameExpansion(r: Request, q: Request, query: seq<Token>, other: string -> string,
                                         render: (Variable, nat, string) -> string)
    requires |r.fields| == |q.fields| == TAB_COUNT
    requires forall t :: t in query && t.Var? && t.variable.Known? && t.variable.index < TAB_COUNT ==>
               Value(r, t.variable.index) == Value(q, t.variable.index)
    ensures ExpandQuery(r, query, other, render) == ExpandQuery(q, query, other, render)
  {
    hide Value;
    if query != [] {
      assert query[0] in query;
      SameExpansion(r, q, query[1..], other, render);
    }
  }

  /** Two requests that share a cache key have the same database and the same query. */
  lemma KeySound(r: Request, q: Request, query: seq<Token>, other: string -> string,
                 render: (Variable, nat, string) -> string)
    requires WellFormed(r) && WellFormed(q) && Covered(query)
    requires ExpandKey(r, KeyOf(query), other) == ExpandKey(q, KeyOf(query), other)
    ensures SameDb(r, q) && ExpandQuery(r, query, other, render) == ExpandQuery(q, query, other, render)
  {
    hide Seen, Merged, Extras, Listed, ExpandKey, Value, Possible;
    KeyNamesDb(r, q, KeyOf(query), other);
    EqualFields(r, q, KeyOf(query), other);
    forall t | t in query && t.Var? && t.variable.Known? && t.variable.index < TAB_COUNT
      ensures Value(r, t.variable.index) == Value(q, t.variable.index)
    {
      SameValue(r, q, query, t.variable.index, other);
    }
    SameExpansion(r, q, query, other, render);
  }

  // ------------------------------------------------------------- the exact condition

  /** Nothing is done to the variables. */
  const PLAIN: (Variable, nat, string) -> string := (v, m, s) => s

  const NO_OTHERS: string -> string := name => ""

  /** A query whose key never makes two different plain expansions share an entry. */
  ghost predicate Sound(query: seq<Token>) {
    forall r, q :: WellFormed(r) && WellFormed(q)
                   && ExpandKey(r, KeyOf(query), NO_OTHERS) == ExpandKey(q, KeyOf(query), NO_OTHERS)
                   ==> ExpandQuery(r, query, NO_OTHERS, PLAIN) == ExpandQuery(q, query, NO_OTHERS, PLAIN)
  }

  /** Two values of field `i`, the second one longer. */
  function Short(i: nat): string {
    if i in ADDRESSES then "1.1.1.1" else if i in NUMBERS then "1" else ""
  }

  function Long(i: nat): string {
    if i in ADDRESSES then "11.1.1.1"
    else if i == SECURED then "secured"
    else if i == CERT then "valid"
    else "11"
  }

  lemma BothPossible(i: nat)
    ensures Possible(i, Short(i)) && Possible(i, Long(i)) && |Short(i)| < |Long(i)|
  {
  }

  /** Two users whose parts differ in no more than variable `i` needs. */
  function Users(i: nat): (string, string) {
    if i in {USER, LOGIN_USER, ORIG_USER} then ("x", "x@")
    else if i in {USERNAME, LOGIN_USERNAME, ORIG_USERNAME} then ("x", "xx")
    else if i in {LOGIN_DOMAIN, ORIG_DOMAIN} then ("x@", "x@x")
    else if i == DOMAIN then ("x@a@a", "x@a@a@a")
    else if i == DOMAIN_FIRST then ("x@a@a", "x@aa@a")
    else if i == DOMAIN_LAST then ("x@a@a", "x@a@aa")
    else ("x", "x")
  }

  predicate OfLogin(i: nat) {
    i in {LOGIN_USER, LOGIN_USERNAME, LOGIN_DOMAIN}
  }

  predicate OfOrig(i: nat) {
    i in {ORIG_USER, ORIG_USERNAME, ORIG_DOMAIN}
  }

  /** A request that is plain but for variable `i`. */
  function Sample(i: nat, user: string, field: string): (r: Request)
    ensures |r.fields| == TAB_COUNT
  {
    Request(false, "", if OfLogin(i) || OfOrig(i) then "x" else user, None,
            if OfLogin(i) then Some(user) else None, Some(if OfOrig(i) then user else "x"),
            seq(TAB_COUNT, j requires 0 <= j < TAB_COUNT => if j == i then field else Short(j)))
  }

  function Witnesses(i: nat): (Request, Request) {
    (Sample(i, Users(i).0, Short(i)), Sample(i, Users(i).1, Long(i)))
  }

  lemma WitnessesExist(i: nat)
    requires i < TAB_COUNT
    ensures var (r, q) := Witnesses(i); WellFormed(r) && WellFormed(q) && SameDb(r, q) && r.master == q.master
  {
    hide Possible, Short, Long;
    BothPossible(i);
    forall j | 0 <= j < TAB_COUNT
      ensures Possible(j, Short(j))
    {
      BothPossible(j);
    }
  }

  /** What variable `i` and those it is a part of differ in. */
  predicate Affected(i: nat, j: nat) {
    j == i || i in Parts(j)
  }

  lemma TwoUsers()
    ensures UpTo("x", '@') == "x" && After("x", '@') == "" && AfterLast("x") == ""
    ensures UpTo("x@", '@') == "x" && After("x@", '@') == "" && AfterLast("x@") == ""
    ensures UpTo("xx", '@') == "xx" && After("xx", '@') == "" && AfterLast("xx") == ""
    ensures UpTo("x@x", '@') == "x" && After("x@x", '@') == "x" && UpTo("", '@') == "" && After("", '@') == ""
  {
    assert "x"[1..] == "" && "x@"[1..] == "@" && "@"[1..] == "" && "xx"[1..] == "x" && "x@x"[1..] == "@x"
           && "@x"[1..] == "x";
    assert After("@x", '@') == "x";
  }

  /** The parts that a user shows in the variables. */
  predicate ShowsAs(user: string, domain: string, first: string, last: string) {
    && UpTo(user, '@') == "x" && After(user, '@') == domain
    && UpTo(domain, '@') == first && AfterLast(user) == last
  }

  lemma FourDomains()
    ensures ShowsAs("x@a@a", "a@a", "a", "a") && ShowsAs("x@a@a@a", "a@a@a", "a", "a")
    ensures ShowsAs("x@aa@a", "aa@a", "aa", "a") && ShowsAs("x@a@aa", "a@aa", "a", "aa")
  {
    hide ShowsAs, UpTo, After, AfterLast;
    Parted("x@a@a", "a@a", "a", "a", "x@a", "a");
    Parted("x@a@a@a", "a@a@a", "a", "a@a", "x@a@a", "a");
    Parted("x@aa@a", "aa@a", "aa", "a", "x@aa", "a");
    Parted("x@a@aa", "a@aa", "a", "aa", "x@a", "aa");
  }

  lemma Parted(user: string, domain: string, first: string, rest: string, before: string, last: string)
    requires '@' !in first && '@' !in last
    requires user == "x" + "@" + domain == before + "@" + last && domain == first + "@" + rest
    ensures ShowsAs(user, domain, first, last)
  {
    hide UpTo, After, AfterLast;
    FirstOf("x", domain);
    FirstOf(first, rest);
    LastAfter(before, last);
  }

  lemma FirstOf(a: string, b: string)
    requires '@' !in a
    ensures UpTo(a + "@" + b, '@') == a && After(a + "@" + b, '@') == b
  {
    var s := a + "@" + b;
    if a != [] {
      FirstOf(a[1..], b);
      assert s[1..] == a[1..] + "@" + b;
    } else {
      assert s[1..] == b;
    }
  }

  lemma LastAfter(a: string, b: string)
    requires '@' !in b
    ensures AfterLast(a + "@" + b) == b
  {
    var s := a + "@" + b;
    if a != [] {
      LastAfter(a[1..], b);
      assert s[1..] == a[1..] + "@" + b;
      assert s[1 + |a| - 1] == '@' && '@' in s[1..] by {
        assert s[1..][|a| - 1] == '@';
      }
    } else {
      assert s[1..] == b;
    }
  }

  const NAMES := {USER, USERNAME, DOMAIN, LOGIN_USER, LOGIN_USERNAME, LOGIN_DOMAIN, DOMAIN_FIRST, DOMAIN_LAST,
                  ORIG_USER, ORIG_USERNAME, ORIG_DOMAIN}

  lemma WitnessesDiffer(i: nat, j: nat)
    requires i < TAB_COUNT && j < TAB_COUNT && i !in {HOME, DB_ID, MASTER_USER}
    ensures var (r, q) := Witnesses(i);
            && (!Affected(i, j) ==> Value(r, j) == Value(q, j))
            && |Value(r, j)| <= |Value(q, j)|
            && (j == i ==> |Value(r, j)| < |Value(q, j)|)
  {
    hide UpTo, After, AfterLast, Short, Long;
    BothPossible(i);
    if i in NAMES {
      NamesDiffer(i, j);
    } else {
      hide Parts;
      assert Users(i) == ("x", "x");
    }
  }

  lemma NamesDiffer(i: nat, j: nat)
    requires i in NAMES && j < TAB_COUNT
    ensures var (r, q) := Witnesses(i);
            && (!Affected(i, j) ==> Value(r, j) == Value(q, j))
            && |Value(r, j)| <= |Value(q, j)|
            && (j == i ==> |Value(r, j)| < |Value(q, j)|)
  {
    hide UpTo, After, AfterLast, Short, Long;
    TwoUsers();
    FourDomains();
  }

  lemma {:induction false} LongerExpansion(r: Request, q: Request, query: seq<Token>)
    requires |r.fields| == |q.fields| == TAB_COUNT
    requires forall j :: 0 <= j < TAB_COUNT ==> |Value(r, j)| <= |Value(q, j)|
    ensures |ExpandQuery(r, query, NO_OTHERS, PLAIN)| <= |ExpandQuery(q, query, NO_OTHERS, PLAIN)|
    ensures (exists t :: t in query && t.Var? && t.variable.Known? && t.variable.index < TAB_COUNT
                         && |Value(r, t.variable.index)| < |Value(q, t.variable.index)|) ==>
              |ExpandQuery(r, query, NO_OTHERS, PLAIN)| < |ExpandQuery(q, query, NO_OTHERS, PLAIN)|
  {
    hide Value;
    if query != [] {
      LongerExpansion(r, q, query[1..]);
    }
  }

  lemma SameKey(r: Request, q: Request, query: seq<Token>)
    requires |r.fields| == |q.fields| == TAB_COUNT && SameDb(r, q) && r.master == q.master
    requires forall j :: 0 <= j < TAB_COUNT && j in Merged(Seen(query)) ==> Value(r, j) == Value(q, j)
    ensures ExpandKey(r, KeyOf(query), NO_OTHERS) == ExpandKey(q, KeyOf(query), NO_OTHERS)
  {
    hide Seen, Merged, Extras, Listed, Value, TabEscape;
    var key := KeyOf(query);
    forall k | 0 <= k < |key|
      ensures KeyValue(r, key[k], NO_OTHERS) == KeyValue(q, key[k], NO_OTHERS)
    {
      assert key[k] in key;
    }
    assert KeyFields(r, key, NO_OTHERS) == KeyFields(q, key, NO_OTHERS);
  }

  /** Two requests that share the key of a query, but differ in a variable that it does not fix. */
  lemma WitnessesAgree(i: nat, query: seq<Token>)
    requires InTable(query) && i < TAB_COUNT && !Determined(i, query)
    ensures var (r, q) := Witnesses(i);
            && WellFormed(r) && WellFormed(q) && SameDb(r, q)
            && ExpandKey(r, KeyOf(query), NO_OTHERS) == ExpandKey(q, KeyOf(query), NO_OTHERS)
            && (forall j :: 0 <= j < TAB_COUNT ==> |Value(r, j)| <= |Value(q, j)|)
            && |Value(r, i)| < |Value(q, i)|
  {
    hide Seen, Merged, Extras, Listed, Value, Parts, ExpandKey, WellFormed, Users, Sample;
    var (r, q) := Witnesses(i);
    WitnessesExist(i);
    forall j | 0 <= j < TAB_COUNT
      ensures |Value(r, j)| <= |Value(q, j)| && (!Affected(i, j) ==> Value(r, j) == Value(q, j))
    {
      WitnessesDiffer(i, j);
    }
    WitnessesDiffer(i, i);
    SameKey(r, q, query);
  }

  /** The key of a query is sound exactly when every variable behind a broken one is fixed by what comes before. */
  lemma KeySoundExactly(query: seq<Token>)
    requires InTable(query)
    ensures Sound(query) <==> Covered(query)
  {
    if Covered(query) {
      forall r, q | WellFormed(r) && WellFormed(q)
                    && ExpandKey(r, KeyOf(query), NO_OTHERS) == ExpandKey(q, KeyOf(query), NO_OTHERS)
        ensures ExpandQuery(r, query, NO_OTHERS, PLAIN) == ExpandQuery(q, query, NO_OTHERS, PLAIN)
      {
        KeySound(r, q, query, NO_OTHERS, PLAIN);
      }
    } else {
      var t :| t in query && t.Var? && t.variable.Known? && !Determined(t.variable.index, query);
      var (r, q) := Witnesses(t.variable.index);
      WitnessesAgree(t.variable.index, query);
      LongerExpansion(r, q, query);
    }
  }

  lemma {:induction false} SeenAll(query: seq<Token>)
    requires Broken !in query
    ensures forall t :: t in query && t.Var? && t.variable.Known? ==> t.variable.index in Seen(query)
  {
    if query != [] {
      assert query[0] in query;
      SeenAll(query[1..]);
    }
  }

  /** Without a broken variable every query is covered. */
  lemma UnbrokenCovered(query: seq<Token>)
    requires Broken !in query
    ensures Covered(query)
  {
    SeenAll(query);
  }

  /** "%{}%u": the key is empty, so all users share one entry. */
  lemma BrokenExample()
    ensures !Sound([Broken, Var(Known(USER), 0)])
  {
    var query := [Broken, Var(Known(USER), 0)];
    assert query[1] in query;
    KeySoundExactly(query);
  }

  /** Whatever is broken, the home is fixed, and behind "%u" so is all that is computed from the user. */
  lemma FixedBehindBroken(query: seq<Token>)
    requires InTable(query) && query != []
    requires forall t :: t in query && t.Var? && t.variable.Known? ==>
               t.variable.index == HOME || (query[0] == Var(Known(USER), 0) && t.variable.index in {USER} + Parts(USER))
    ensures Sound(query)
  {
    hide Sound, Parts;
    assert query[0] == Var(Known(USER), 0) ==> USER in Merged(Seen(query)) by {
      hide InTable;
    }
    hide Seen, Merged;
    assert Covered(query);
    KeySoundExactly(query);
  }

  /** "%{}%h" and "%u%{}%{domain_first}" */
  lemma FixedExamples()
    ensures Sound([Broken, Var(Known(HOME), 0)])
    ensures Sound([Var(Known(USER), 0), Broken, Var(Known(DOMAIN_FIRST), 0)])
  {
    hide Sound;
    FixedBehindBroken([Broken, Var(Known(HOME), 0)]);
    FixedBehindBroken([Var(Known(USER), 0), Broken, Var(Known(DOMAIN_FIRST), 0)]);
  }

  // --------------------------------------------------------- flushing by user name

  lemma {:induction false} TabReached(a: string, rest: string)
    requires '\t' !in a && rest != [] && rest[0] == '\t'
    ensures AuthCache.DropToTab(a + rest) == rest
  {
    if a == [] {
      assert a + rest == rest;
    } else {
      assert (a + rest)[1..] == a[1..] + rest;
      TabReached(a[1..], rest);
    }
  }

  /** A key that holds the whole user belongs to exactly that user, whatever else is in it. */
  lemma FlushHitsUser(r: Request, query: seq<Token>, name: string, other: string -> string)
    requires WellFormed(r) && USER in Merged(Seen(query)) && '\t' !in name
    ensures AuthCache.IsUser(ExpandKey(r, KeyOf(query), other), name) <==> name == TabEscape(r.user)
  {
    hide Seen, Merged, Extras, Listed, TabEscape, Join, AuthCache.IsUser, Prefix;
    var fields := KeyFields(r, KeyOf(query), other);
    ListedStep(Merged(Seen(query)), USER);
    assert fields[0] == TabEscape(r.user);
    UserField(fields, name);
    AfterPrefix(r, Join(fields), name);
  }

  lemma AfterPrefix(r: Request, joined: string, name: string)
    requires WellFormed(r)
    ensures AuthCache.IsUser(Prefix(r) + "\t" + joined, name) <==>
            name <= joined && (|joined| == |name| || joined[|name|] == '\t')
  {
    hide TabEscape, AuthCache.DropDigits, AuthCache.DropToTab, Possible;
    var tail := "\t" + joined;
    var plus := if r.master.Some? then "+" + TabEscape(r.master.value) else "";
    var key := Prefix(r) + "\t" + joined;
    assert key[1..] == r.dbId + (plus + tail);
    DigitsDropped(r.dbId, plus + tail);
    TabReached(plus, tail);
    assert plus == "" ==> plus + tail == tail;
    assert tail[1..] == joined;
  }

  lemma UserField(fields: seq<string>, name: string)
    requires fields != [] && '\t' !in name && '\t' !in fields[0]
    ensures var s := Join(fields);
            name <= s && (|s| == |name| || s[|name|] == '\t') <==> name == fields[0]
  {
    var s := Join(fields);
    assert fields[0] <= s && (|s| == |fields[0]| || s[|fields[0]|] == '\t');
    assert forall i :: 0 <= i < |fields[0]| ==> s[i] == fields[0][i];
  }
}
