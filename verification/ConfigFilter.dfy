/**
 Configuration filters: sections like `local 10.0.0.0/8 { remote 10.1.0.0/16 { protocol imap { ... } } }`
 (config-parser.c), and finding the filters that apply to a request in the order their settings are
 merged (config-filter.c).
 */
module ConfigFilter {
  import opened Wrappers

  // ------------------------------------------------------------- networks

  /** An address is its bits, most significant first. */
  datatype Ip = NoAddress | V4(bits: seq<bool>) | V6(bits: seq<bool>) {
    ghost predicate Valid() {
      (V4? ==> |bits| == 32) && (V6? ==> |bits| == 128)
    }
  }

  /** `::ffff:0:0/96` */
  predicate Mapped(ip: Ip)
    requires ip.Valid()
  {
    ip.V6? && (forall i :: 0 <= i < 80 ==> !ip.bits[i]) && (forall i :: 80 <= i < 96 ==> ip.bits[i])
  }

  /** An IPv4 address disguised as an IPv6 one counts as IPv4. */
  function Unmapped(ip: Ip): (r: Ip)
    requires ip.Valid()
    ensures r.Valid()
  {
    if Mapped(ip) then V4(ip.bits[96..]) else ip
  }

  /** `ip` lies in `net`/`bits`.  A disguised `net` is not looked through. */
  ghost predicate Contains(net: Ip, bits: nat, ip: Ip)
    requires ip.Valid() && net.Valid() && !net.NoAddress? && bits <= |net.bits|
  {
    var a := Unmapped(ip);
    !a.NoAddress? && (a.V4? <==> net.V4?) && a.bits[..bits] == net.bits[..bits]
  }

  /** An IPv6 address lies in an IPv4 network only as `::ffff:a.b.c.d`, and in an IPv6 one only if it is not that. */
  lemma LooksThrough(ip: Ip, net: Ip, bits: nat)
    requires ip.Valid() && ip.V6? && net.Valid() && !net.NoAddress? && bits <= |net.bits|
    ensures var disguised := ip.bits[..96] == seq(80, _ => false) + seq(16, _ => true);
            Contains(net, bits, ip) <==>
            if net.V4? then disguised && ip.bits[96..96 + bits] == net.bits[..bits]
            else !disguised && ip.bits[..bits] == net.bits[..bits]
  {
    var head, mark := ip.bits[..96], seq(80, _ => false) + seq(16, _ => true);
    assert forall i :: 0 <= i < 96 ==> head[i] == ip.bits[i];
    assert Mapped(ip) <==> head == mark by {
      if head == mark {
        assert forall i :: 0 <= i < 96 ==> ip.bits[i] == mark[i];
      }
    }
    if net.V4? {
      assert ip.bits[96..][..bits] == ip.bits[96..96 + bits];
    }
  }

  /** An address disguised as `::ffff:a.b.c.d` lies in the same networks as `a.b.c.d`, none of which is an IPv6 one. */
  lemma DisguisedAlike(ip: Ip, net: Ip, bits: nat)
    requires ip.Valid() && ip.V4? && net.Valid() && !net.NoAddress? && bits <= |net.bits|
    ensures var disguised := V6(seq(80, _ => false) + seq(16, _ => true) + ip.bits);
            disguised.Valid() && (Contains(net, bits, disguised) <==> net.V4? && ip.bits[..bits] == net.bits[..bits])
    ensures Contains(net, bits, ip) <==> net.V4? && ip.bits[..bits] == net.bits[..bits]
    ensures !Contains(net, bits, NoAddress)
  {
    var disguised := V6(seq(80, _ => false) + seq(16, _ => true) + ip.bits);
    assert disguised.bits[96..] == ip.bits;
    assert Mapped(disguised);
  }

  /** The word, byte and bit loops of `net_is_in_network`. */
  method InNetwork(ip: Ip, net: Ip, bits: nat) returns (r: bool)
    requires ip.Valid() && net.Valid() && !net.NoAddress? && bits <= |net.bits|
    ensures r <==> Contains(net, bits, ip)
  {
    hide Unmapped;
    var a := Unmapped(ip);
    if a.NoAddress? {
      return false;
    }
    if a.V4? != net.V4? {
      return false;
    }
    r := SamePrefix(a.bits, net.bits, bits);
  }

  method SamePrefix(a: seq<bool>, b: seq<bool>, bits: nat) returns (r: bool)
    requires bits <= |a| && bits <= |b|
    ensures r <==> a[..bits] == b[..bits]
  {
    var pos := 0;
    while pos + 32 <= bits
      invariant pos <= bits && Same(a, b, pos)
    {
      if a[pos..pos + 32] != b[pos..pos + 32] {
        Differ(a, b, pos, 32, bits);
        return false;
      }
      Agree(a, b, pos, 32);
      pos := pos + 32;
    }
    while pos + 8 <= bits
      invariant pos <= bits && Same(a, b, pos)
    {
      if a[pos..pos + 8] != b[pos..pos + 8] {
        Differ(a, b, pos, 8, bits);
        return false;
      }
      Agree(a, b, pos, 8);
      pos := pos + 8;
    }
    while pos < bits
      invariant pos <= bits && Same(a, b, pos)
    {
      if a[pos] != b[pos] {
        Differ(a, b, pos, 1, bits);
        return false;
      }
      Agree(a, b, pos, 1);
      pos := pos + 1;
    }
    return true;
  }

  ghost predicate Same(a: seq<bool>, b: seq<bool>, pos: nat) {
    pos <= |a| && pos <= |b| && a[..pos] == b[..pos]
  }

  lemma Agree(a: seq<bool>, b: seq<bool>, pos: nat, n: nat)
    requires Same(a, b, pos) && pos + n <= |a| && pos + n <= |b| && a[pos..pos + n] == b[pos..pos + n]
    ensures Same(a, b, pos + n)
  {
    assert a[..pos + n] == a[..pos] + a[pos..pos + n];
    assert b[..pos + n] == b[..pos] + b[pos..pos + n];
  }

  lemma Differ(a: seq<bool>, b: seq<bool>, pos: nat, n: nat, bits: nat)
    requires pos + n <= bits <= |a| && bits <= |b| && a[pos..pos + n] != b[pos..pos + n]
    ensures a[..bits] != b[..bits]
  {
    assert a[pos..pos + n] == a[..bits][pos..pos + n];
    assert b[pos..pos + n] == b[..bits][pos..pos + n];
  }

  lemma Shorter(a: seq<bool>, b: seq<bool>, n: nat, m: nat)
    requires m <= n <= |a| && n <= |b| && a[..n] == b[..n]
    ensures a[..m] == b[..m]
  {
    assert a[..m] == a[..n][..m] && b[..m] == b[..n][..m];
  }

  /** A network range, as parsed from a section's argument. */
  datatype Range = Range(net: Ip, bits: nat) {
    ghost predicate Valid() {
      net.Valid() && !net.NoAddress? && bits <= |net.bits|
    }
  }

  /** The subset test for nested networks fails for a disguised IPv4 network that is not even sure to be disguised. */
  predicate Leaks(outerBits: nat, inner: Range)
    requires inner.net.Valid()
  {
    outerBits > 0 && inner.bits < 96 && Mapped(inner.net)
  }

  lemma InsideBoth(outer: Range, inner: Range, ip: Ip)
    requires outer.Valid() && inner.Valid() && ip.Valid() && outer.bits <= inner.bits
    requires Contains(outer.net, outer.bits, inner.net) && Contains(inner.net, inner.bits, ip)
    requires outer.bits > 0 && !Leaks(outer.bits, inner)
    ensures Contains(outer.net, outer.bits, ip)
  {
    var a := Unmapped(ip);
    if Mapped(inner.net) {
      // nothing matches the inner network: a request in it would be disguised itself
      assert forall i :: 0 <= i < 96 ==> ip.bits[i] == ip.bits[..inner.bits][i] == inner.net.bits[..inner.bits][i];
      assert false;
    } else {
      Shorter(a.bits, inner.net.bits, inner.bits, outer.bits);
    }
  }

  /** An address in the inner network that is not disguised, so not in the outer one. */
  function Undisguised(inner: Ip): (ip: Ip)
    requires inner.Valid() && Mapped(inner)
    ensures ip.Valid() && !Mapped(ip) && ip.V6?
  {
    var ip := V6(inner.bits[95 := false]);
    assert !ip.bits[95];
    ip
  }

  lemma OutsideOuter(outer: Range, inner: Range)
    requires outer.Valid() && inner.Valid() && Contains(outer.net, outer.bits, inner.net) && Leaks(outer.bits, inner)
    ensures Contains(inner.net, inner.bits, Undisguised(inner.net))
            && !Contains(outer.net, outer.bits, Undisguised(inner.net))
  {
  }

  // ------------------------------------------------------------- filters

  /** A section's filter, or a request.  No bits means no restriction, or an unknown address. */
  datatype Filter = Filter(service: Option<string>, localName: Option<string>, local: Range, remote: Range) {
    ghost predicate Valid() {
      && local.net.Valid() && (local.bits > 0 ==> local.Valid())
      && remote.net.Valid() && (remote.bits > 0 ==> remote.Valid())
    }
  }

  const GLOBAL := Filter(None, None, Range(NoAddress, 0), Range(NoAddress, 0))

  predicate MatchService(mask: Filter, request: Filter) {
    mask.service.Some? ==>
      && request.service.Some?
      && (if mask.service.value != [] && mask.service.value[0] == '!'
          then request.service.value != mask.service.value[1..]
          else request.service == mask.service)
  }

  ghost predicate MatchNet(mask: Range, request: Range)
    requires request.net.Valid() && (mask.bits > 0 ==> mask.Valid())
  {
    mask.bits != 0 ==> request.bits != 0 && Contains(mask.net, mask.bits, request.net)
  }

  ghost predicate MatchRest(mask: Filter, request: Filter)
    requires mask.Valid() && request.Valid()
  {
    && (mask.localName.Some? ==> request.localName == mask.localName)
    && MatchNet(mask.remote, request.remote)
    && MatchNet(mask.local, request.local)
  }

  /** `config_filter_match` */
  ghost predicate Match(mask: Filter, request: Filter)
    requires mask.Valid() && request.Valid()
  {
    MatchService(mask, request) && MatchRest(mask, request)
  }

  /** `config_filter_parser_cmp`: negative when the first one is more specific. */
  function Cmp(f1: Filter, f2: Filter): (r: int)
    ensures -1 <= r <= 1
  {
    if f1.localName.Some? && f2.localName.None? then -1
    else if f1.localName.None? && f2.localName.Some? then 1
    else if f1.local.bits > f2.local.bits then -1
    else if f1.local.bits < f2.local.bits then 1
    else if f1.remote.bits > f2.remote.bits then -1
    else if f1.remote.bits < f2.remote.bits then 1
    else if f1.service.Some? && f2.service.None? then -1
    else if f1.service.None? && f2.service.Some? then 1
    else 0
  }

  /** `config_filter_is_superset`: settings of `sup` may be overridden by those of `filter` without a conflict. */
  predicate IsSuperset(sup: Filter, filter: Filter) {
    && sup.local.bits <= filter.local.bits
    && sup.remote.bits <= filter.remote.bits
    && (sup.localName.Some? ==> filter.localName.Some?)
    && (sup.service.Some? ==> filter.service.Some?)
  }

  /**
   A filter is more specific if it has a local name and the other one has none, then by the bits of the local network,
   then by those of the remote one, and then if only it has a service.
   */
  lemma CmpExactly(f1: Filter, f2: Filter)
    ensures var name1, name2 := f1.localName.Some?, f2.localName.Some?;
            var local, remote := f1.local.bits - f2.local.bits, f1.remote.bits - f2.remote.bits;
            Cmp(f1, f2) < 0 <==>
            || (name1 && !name2)
            || (name1 == name2 && local > 0)
            || (name1 == name2 && local == 0 && remote > 0)
            || (name1 == name2 && local == 0 && remote == 0 && f1.service.Some? && f2.service.None?)
    ensures Cmp(f1, f2) == 0 <==>
            && f1.localName.Some? == f2.localName.Some? && f1.service.Some? == f2.service.Some?
            && f1.local.bits == f2.local.bits && f1.remote.bits == f2.remote.bits
  {
  }

  /** The merge order is a total preorder. */
  lemma CmpOrder(f1: Filter, f2: Filter, f3: Filter)
    ensures Cmp(f1, f2) == -Cmp(f2, f1)
    ensures Cmp(f1, f2) <= 0 && Cmp(f2, f3) <= 0 ==> Cmp(f1, f3) <= 0
  {
  }

  // ------------------------------------------------------------- opening sections

  datatype Section = Protocol(name: string) | Local(range: Option<Range>) | LocalName(name: string)
                   | Remote(range: Option<Range>)
  {
    /** The argument of `local` and `remote` is `None` when it is not a network. */
    ghost predicate Valid() {
      (Local? || Remote?) && range.Some? ==> range.value.Valid()
    }
  }

  datatype Error = UnderProtocol | UnderRemote | UnderLocalName | NotANetwork | NotASubset | UnexpectedEnd

  ghost predicate Subset(outer: Range, inner: Range)
    requires inner.Valid() && (outer.bits > 0 ==> outer.Valid())
  {
    outer.bits <= inner.bits && (outer.bits > 0 ==> Contains(outer.net, outer.bits, inner.net))
  }

  /** `config_filter_add_new_filter`: the filter of a section that is opened under `parent`. */
  ghost function Narrow(parent: Filter, section: Section): (r: Result<Filter, Error>)
    requires parent.Valid() && section.Valid()
    ensures r.Ok? ==> r.value.Valid()
  {
    match section
    case Protocol(name) =>
      if parent.service.Some? then Err(UnderProtocol) else Ok(parent.(service := Some(name)))
    case Local(range) =>
      if parent.remote.bits > 0 then Err(UnderRemote)
      else if parent.service.Some? then Err(UnderProtocol)
      else if parent.localName.Some? then Err(UnderLocalName)
      else if range.None? then Err(NotANetwork)
      else if !Subset(parent.local, range.value) then Err(NotASubset)
      else Ok(parent.(local := range.value))
    case LocalName(name) =>
      if parent.remote.bits > 0 then Err(UnderRemote)
      else if parent.service.Some? then Err(UnderProtocol)
      else Ok(parent.(localName := Some(name)))
    case Remote(range) =>
      if parent.service.Some? then Err(UnderProtocol)
      else if range.None? then Err(NotANetwork)
      else if !Subset(parent.remote, range.value) then Err(NotASubset)
      else Ok(parent.(remote := range.value))
  }

  /**
   Sections nest as `local`, `local_name`, `remote` and `protocol`, from the outside in, with one protocol at most and
   every network inside the one around it.  A section changes its parent's filter in its own respect alone.
   */
  lemma NarrowExactly(parent: Filter, section: Section)
    requires parent.Valid() && section.Valid()
    ensures Narrow(parent, section).Ok? <==>
            && parent.service.None?
            && (section.Local? || section.LocalName? ==> parent.remote.bits == 0)
            && (section.Local? ==> parent.localName.None?)
            && (section.Local? || section.Remote? ==>
                  var around := if section.Local? then parent.local else parent.remote;
                  && section.range.Some? && around.bits <= section.range.value.bits
                  && (around.bits > 0 ==> Contains(around.net, around.bits, section.range.value.net)))
    ensures Narrow(parent, section).Ok? ==>
              && Narrow(parent, section).value.service == (if section.Protocol? then Some(section.name) else None)
              && Narrow(parent, section).value.localName
                 == (if section.LocalName? then Some(section.name) else parent.localName)
              && Narrow(parent, section).value.local == (if section.Local? then section.range.value else parent.local)
              && Narrow(parent, section).value.remote
                 == (if section.Remote? then section.range.value else parent.remote)
  {
  }

  /** The accepted sections that restrict their parent. */
  ghost predicate Restricts(parent: Filter, section: Section)
    requires section.Valid()
  {
    match section
    case Protocol(_) => true
    case Local(range) => range.Some? ==> !Leaks(parent.local.bits, range.value)
    case LocalName(name) => parent.localName.Some? ==> parent.localName == Some(name)
    case Remote(range) => range.Some? ==> !Leaks(parent.remote.bits, range.value)
  }

  lemma NetInside(outer: Range, inner: Range, request: Range)
    requires inner.Valid() && (outer.bits > 0 ==> outer.Valid()) && request.net.Valid()
    requires Subset(outer, inner) && !Leaks(outer.bits, inner) && MatchNet(inner, request)
    ensures MatchNet(outer, request)
  {
    if outer.bits > 0 {
      InsideBoth(outer, inner, request.net);
    }
  }

  lemma Inside(parent: Filter, section: Section, request: Filter)
    requires parent.Valid() && section.Valid() && request.Valid()
    requires Narrow(parent, section).Ok? && Restricts(parent, section) && Match(Narrow(parent, section).value, request)
    ensures Match(parent, request)
  {
    if section.Local? {
      NetInside(parent.local, section.range.value, request.local);
    } else if section.Remote? {
      NetInside(parent.remote, section.range.value, request.remote);
    }
  }

  /** A request in the inner section but not in the outer one, made from any request in the inner one. */
  ghost function Escaping(parent: Filter, section: Section, request: Filter): Filter
    requires section.Valid() && !Restricts(parent, section)
  {
    match section
    case Local(range) => request.(local := Range(Undisguised(range.value.net), 128))
    case Remote(range) => request.(remote := Range(Undisguised(range.value.net), 128))
    case _ => request
  }

  lemma Escapes(parent: Filter, section: Section, request: Filter)
    requires parent.Valid() && section.Valid() && request.Valid()
    requires Narrow(parent, section).Ok? && !Restricts(parent, section) && Match(Narrow(parent, section).value, request)
    ensures Escaping(parent, section, request).Valid()
    ensures Match(Narrow(parent, section).value, Escaping(parent, section, request))
    ensures !Match(parent, Escaping(parent, section, request))
  {
    if section.Local? {
      OutsideOuter(parent.local, section.range.value);
    } else if section.Remote? {
      OutsideOuter(parent.remote, section.range.value);
    }
  }

  /** Matching the section implies matching its parent exactly when the section restricts it, if it matches anything. */
  lemma RestrictsExactly(parent: Filter, section: Section, example: Filter)
    requires parent.Valid() && section.Valid() && example.Valid()
    requires Narrow(parent, section).Ok? && Match(Narrow(parent, section).value, example)
    ensures Restricts(parent, section) <==>
              forall request: Filter :: request.Valid() && Match(Narrow(parent, section).value, request) ==>
                Match(parent, request)
  {
    if Restricts(parent, section) {
      forall request: Filter | request.Valid() && Match(Narrow(parent, section).value, request)
        ensures Match(parent, request)
      {
        Inside(parent, section, request);
      }
    } else {
      Escapes(parent, section, example);
    }
  }

  lemma MoreSpecific(parent: Filter, section: Section)
    requires parent.Valid() && section.Valid() && Narrow(parent, section).Ok?
    ensures Cmp(Narrow(parent, section).value, parent) <= 0 && IsSuperset(parent, Narrow(parent, section).value)
  {
  }

  /** `local 0.0.0.0/8 { local ::ffff:0.0.0.0/64 { } }` is accepted, and `local_name a { local_name b { } }` too. */
  lemma EscapingExamples()
    ensures var parent := GLOBAL.(local := Range(V4(seq(32, _ => false)), 8));
            var section := Local(Some(Range(V6(seq(128, i => 80 <= i < 96)), 64)));
            var request := GLOBAL.(local := Range(V6(seq(128, i => 80 <= i < 95)), 128));
            && Narrow(GLOBAL, Local(Some(parent.local))) == Ok(parent) && Narrow(parent, section).Ok?
            && Match(Narrow(parent, section).value, request) && !Match(parent, request)
    ensures var parent := GLOBAL.(localName := Some("a"));
            var request := GLOBAL.(localName := Some("b"));
            && Narrow(GLOBAL, LocalName("a")) == Ok(parent) && Narrow(parent, LocalName("b")).Ok?
            && Match(Narrow(parent, LocalName("b")).value, request) && !Match(parent, request)
  {
    var net := V6(seq(128, i => 80 <= i < 96));
    assert Mapped(net);
    assert net.bits[96..][..8] == seq(32, _ => false)[..8];
    var ip := V6(seq(128, i => 80 <= i < 95));
    assert !ip.bits[95] && !Mapped(ip);
    assert ip.bits[..64] == net.bits[..64];
  }

  // ------------------------------------------------------------- nested sections

  /** A step into an ordinary section keeps the filter. */
  datatype Step = Ordinary | Opening(section: Section)

  ghost predicate Opens(outer: Filter, step: Step, inner: Filter) {
    match step
    case Ordinary => inner == outer
    case Opening(section) => outer.Valid() && section.Valid() && Narrow(outer, section) == Ok(inner)
  }

  /** The filters of the open sections, outermost first. */
  ghost predicate Chain(filters: seq<Filter>, steps: seq<Step>) {
    && |filters| == |steps| + 1
    && filters[0].Valid()
    && (forall i :: 0 <= i < |steps| ==> Opens(filters[i], steps[i], filters[i + 1]))
  }

  ghost predicate AllRestrict(filters: seq<Filter>, steps: seq<Step>)
    requires |filters| == |steps| + 1
  {
    forall i :: 0 <= i < |steps| && steps[i].Opening? ==>
      steps[i].section.Valid() && Restricts(filters[i], steps[i].section)
  }

  lemma {:induction false} ChainValid(filters: seq<Filter>, steps: seq<Step>, j: nat)
    requires Chain(filters, steps) && j < |filters|
    ensures filters[j].Valid()
  {
    if j > 0 {
      ChainValid(filters, steps, j - 1);
      assert Opens(filters[j - 1], steps[j - 1], filters[j]);
    }
  }

  /** A request that matches an inner section matches every section around it. */
  lemma {:induction false} Enclosed(filters: seq<Filter>, steps: seq<Step>, i: nat, j: nat, request: Filter)
    requires Chain(filters, steps) && AllRestrict(filters, steps) && i <= j < |filters| && request.Valid()
    requires filters[j].Valid() && Match(filters[j], request)
    ensures filters[i].Valid() && Match(filters[i], request)
    decreases j
  {
    if i < j {
      ChainValid(filters, steps, j - 1);
      assert Opens(filters[j - 1], steps[j - 1], filters[j]);
      if steps[j - 1].Opening? {
        Inside(filters[j - 1], steps[j - 1].section, request);
      }
      Enclosed(filters, steps, i, j - 1, request);
    }
  }

  /** An inner section is never merged as the less specific one, and overrides the outer one without conflict. */
  lemma {:induction false} InnerFirst(filters: seq<Filter>, steps: seq<Step>, i: nat, j: nat)
    requires Chain(filters, steps) && i <= j < |filters|
    ensures Cmp(filters[j], filters[i]) <= 0 && IsSuperset(filters[i], filters[j])
    decreases j
  {
    if i < j {
      InnerFirst(filters, steps, i, j - 1);
      assert Opens(filters[j - 1], steps[j - 1], filters[j]);
      if steps[j - 1].Opening? {
        MoreSpecific(filters[j - 1], steps[j - 1].section);
      }
      CmpOrder(filters[j], filters[j - 1], filters[i]);
    }
  }

  /** Of two filters of one chain, the one merged later is a superset: the merge reports no conflict. */
  lemma NoConflict(filters: seq<Filter>, steps: seq<Step>, i: nat, j: nat)
    requires Chain(filters, steps) && i < |filters| && j < |filters| && Cmp(filters[i], filters[j]) <= 0
    ensures IsSuperset(filters[j], filters[i])
  {
    if i <= j {
      InnerFirst(filters, steps, i, j);
      CmpOrder(filters[i], filters[j], filters[i]);
    } else {
      InnerFirst(filters, steps, j, i);
    }
  }

  class Sections {
    /** The filters of the open sections. */
    var stack: seq<Filter>
    /** The filter of every parser, the global one first. */
    var parsers: seq<Filter>
    ghost var steps: seq<Step>

    constructor ()
      ensures Valid() && stack == parsers == [GLOBAL]
    {
      stack, parsers, steps := [GLOBAL], [GLOBAL], [];
    }

    ghost predicate Valid()
      reads this
    {
      && Chain(stack, steps)
      && (forall f :: f in stack ==> f in parsers)
      && (forall i, j :: 0 <= i < j < |parsers| ==> parsers[i] != parsers[j])
      && (forall f :: f in parsers ==> f.Valid())
      && parsers != [] && parsers[0] == stack[0] == GLOBAL
    }

    /** The subset test of `local` and `remote`. */
    static method IsSubset(outer: Range, inner: Range) returns (r: bool)
      requires inner.Valid() && (outer.bits > 0 ==> outer.Valid())
      ensures r <==> Subset(outer, inner)
    {
      if outer.bits > inner.bits {
        return false;
      }
      if outer.bits > 0 {
        r := InNetwork(inner.net, outer.net, outer.bits);
      } else {
        r := true;
      }
    }

    /** `config_filter_add_new_filter` up to the parser lookup. */
    static method NewFilter(parent: Filter, section: Section) returns (r: Result<Filter, Error>)
      requires parent.Valid() && section.Valid()
      ensures r == Narrow(parent, section)
    {
      match section
      case Protocol(name) =>
        if parent.service.Some? {
          return Err(UnderProtocol);
        }
        return Ok(parent.(service := Some(name)));
      case Local(range) =>
        if parent.remote.bits > 0 {
          return Err(UnderRemote);
        } else if parent.service.Some? {
          return Err(UnderProtocol);
        } else if parent.localName.Some? {
          return Err(UnderLocalName);
        } else if range.None? {
          return Err(NotANetwork);
        }
        var subset := IsSubset(parent.local, range.value);
        return if subset then Ok(parent.(local := range.value)) else Err(NotASubset);
      case LocalName(name) =>
        if parent.remote.bits > 0 {
          return Err(UnderRemote);
        } else if parent.service.Some? {
          return Err(UnderProtocol);
        }
        return Ok(parent.(localName := Some(name)));
      case Remote(range) =>
        if parent.service.Some? {
          return Err(UnderProtocol);
        } else if range.None? {
          return Err(NotANetwork);
        }
        var subset := IsSubset(parent.remote, range.value);
        return if subset then Ok(parent.(remote := range.value)) else Err(NotASubset);
    }

    /** `config_filter_parser_find` */
    method FindParser(filter: Filter) returns (found: bool)
      ensures found <==> filter in parsers
    {
      var i := 0;
      while i < |parsers|
        invariant 0 <= i <= |parsers| && filter !in parsers[..i]
      {
        if parsers[i] == filter {
          return true;
        }
        i := i + 1;
      }
      return false;
    }

    /** Opening a section: its filter narrows the current one, and equal filters share one parser. */
    method Begin(step: Step) returns (error: Option<Error>)
      requires Valid() && (step.Opening? ==> step.section.Valid())
      modifies this
      ensures Valid()
      ensures error == None ==>
                && |stack| == |old(stack)| + 1 && stack[..|old(stack)|] == old(stack) && steps == old(steps) + [step]
                && Opens(old(stack)[|old(stack)| - 1], step, stack[|stack| - 1])
                && (forall f :: f in parsers <==> f in old(parsers) || f == stack[|stack| - 1])
      ensures error.Some? ==> stack == old(stack) && parsers == old(parsers) && steps == old(steps)
                              && step.Opening? && old(stack)[|old(stack)| - 1].Valid()
                              && Narrow(old(stack)[|old(stack)| - 1], step.section) == Err(error.value)
    {
      var top := stack[|stack| - 1];
      ChainValid(stack, steps, |stack| - 1);
      var inner := top;
      if step.Opening? {
        var r := NewFilter(top, step.section);
        if r.Err? {
          return Some(r.error);
        }
        inner := r.value;
      }
      hide Narrow, Filter.Valid, Section.Valid;
      assert Chain(stack + [inner], steps + [step]) by {
        ChainGrows(stack, steps, inner, step);
      }
      stack, steps := stack + [inner], steps + [step];
      var found := FindParser(inner);
      if !found {
        parsers := parsers + [inner];
      }
      return None;
    }

    /** Closing a section. */
    method End() returns (error: Option<Error>)
      requires Valid()
      modifies this`stack, this`steps
      ensures Valid() && (error.Some? <==> |old(stack)| == 1)
      ensures error.Some? ==> stack == old(stack) && steps == old(steps)
      ensures error == None ==> stack == old(stack)[..|old(stack)| - 1] && steps == old(steps)[..|old(steps)| - 1]
    {
      if |stack| == 1 {
        return Some(UnexpectedEnd);
      }
      stack, steps := stack[..|stack| - 1], steps[..|steps| - 1];
      return None;
    }
  }

  lemma ChainGrows(filters: seq<Filter>, steps: seq<Step>, inner: Filter, step: Step)
    requires Chain(filters, steps) && Opens(filters[|filters| - 1], step, inner)
    ensures Chain(filters + [inner], steps + [step])
  {
    hide Opens;
  }

  // ------------------------------------------------------------- the filters of a request

  ghost function Matching(parsers: seq<Filter>, request: Filter): seq<Filter>
    requires request.Valid() && forall f :: f in parsers ==> f.Valid()
  {
    if parsers == [] then []
    else
      var n := |parsers| - 1;
      Matching(parsers[..n], request) + if Match(parsers[n], request) then [parsers[n]] else []
  }

  ghost predicate Sorted(s: seq<Filter>) {
    forall i, j :: 0 <= i < j < |s| ==> Cmp(s[i], s[j]) <= 0
  }

  /** Where `filter` goes in a sorted sequence. */
  method Place(s: seq<Filter>, filter: Filter) returns (r: seq<Filter>)
    requires Sorted(s)
    ensures Sorted(r) && multiset(r) == multiset(s) + multiset{filter}
  {
    var i := |s|;
    hide Cmp;
    while i > 0 && Cmp(filter, s[i - 1]) < 0
      invariant 0 <= i <= |s| && forall k :: i <= k < |s| ==> Cmp(filter, s[k]) <= 0
    {
      i := i - 1;
    }
    forall k | 0 <= k < i
      ensures Cmp(s[k], filter) <= 0
    {
      CmpOrder(s[i - 1], filter, filter);
      CmpOrder(s[k], s[i - 1], filter);
    }
    Placed(s, filter, i);
    r := s[..i] + [filter] + s[i..];
  }

  lemma Placed(s: seq<Filter>, filter: Filter, i: nat)
    requires Sorted(s) && i <= |s|
    requires forall k :: 0 <= k < i ==> Cmp(s[k], filter) <= 0
    requires forall k :: i <= k < |s| ==> Cmp(filter, s[k]) <= 0
    ensures Sorted(s[..i] + [filter] + s[i..])
    ensures multiset(s[..i] + [filter] + s[i..]) == multiset(s) + multiset{filter}
  {
    hide Cmp;
    assert s == s[..i] + s[i..];
    var r := s[..i] + [filter] + s[i..];
    assert forall k :: 0 <= k < |r| ==> r[k] == if k < i then s[k] else if k == i then filter else s[k - 1];
  }

  /** Any sorting by `Cmp` will do. */
  method Sort(s: seq<Filter>) returns (r: seq<Filter>)
    ensures Sorted(r) && multiset(r) == multiset(s)
  {
    r := [];
    var i := 0;
    while i < |s|
      invariant 0 <= i <= |s| && Sorted(r) && multiset(r) == multiset(s[..i])
    {
      assert s[..i + 1] == s[..i] + [s[i]];
      r := Place(r, s[i]);
      i := i + 1;
    }
    assert s[..i] == s;
  }

  /** `config_filter_match_rest` */
  method MatchesRest(mask: Filter, request: Filter) returns (r: bool)
    requires mask.Valid() && request.Valid()
    ensures r <==> MatchRest(mask, request)
  {
    if mask.localName.Some? && request.localName != mask.localName {
      return false;
    }
    if mask.remote.bits != 0 {
      if request.remote.bits == 0 {
        return false;
      }
      var inside := InNetwork(request.remote.net, mask.remote.net, mask.remote.bits);
      if !inside {
        return false;
      }
    }
    if mask.local.bits != 0 {
      if request.local.bits == 0 {
        return false;
      }
      var inside := InNetwork(request.local.net, mask.local.net, mask.local.bits);
      if !inside {
        return false;
      }
    }
    return true;
  }

  predicate UsesLocal(mask: Filter) {
    mask.local.bits > 0 || mask.localName.Some?
  }

  /** What `config_filter_find_all` tells beside the filters. */
  datatype Output = Output(serviceUsesLocal: bool, serviceUsesRemote: bool, usedLocal: bool, usedRemote: bool)

  ghost function OutputOf(parsers: seq<Filter>, request: Filter): Output
    requires request.Valid() && forall f :: f in parsers ==> f.Valid()
  {
    Output(exists f :: f in parsers && MatchService(f, request) && UsesLocal(f),
           exists f :: f in parsers && MatchService(f, request) && f.remote.bits > 0,
           exists f :: f in parsers && Match(f, request) && UsesLocal(f),
           exists f :: f in parsers && Match(f, request) && f.remote.bits > 0)
  }

  /** The services that are not the request's and have `changed` settings, each named once. */
  function OtherServices(parsers: seq<Filter>, changed: seq<bool>, request: Filter): seq<string>
    requires |changed| == |parsers|
  {
    if parsers == [] then []
    else
      var last := |parsers| - 1;
      var names, mask := OtherServices(parsers[..last], changed[..last], request), parsers[last];
      if !MatchService(mask, request) && mask.service.value !in names && changed[last] then names + [mask.service.value]
      else names
  }

  lemma {:induction false} OtherServicesExactly(parsers: seq<Filter>, changed: seq<bool>, request: Filter, name: string)
    requires |changed| == |parsers|
    ensures var names := OtherServices(parsers, changed, request);
            && (name in names <==>
                exists i :: 0 <= i < |parsers| && changed[i]
                            && parsers[i].service == Some(name) && !MatchService(parsers[i], request))
            && (request.service.None? ==>
                  (name in names <==> exists i :: 0 <= i < |parsers| && changed[i] && parsers[i].service == Some(name)))
            && (forall i, j :: 0 <= i < j < |names| ==> names[i] != names[j])
  {
    assert request.service.None? ==> forall f: Filter :: MatchService(f, request) <==> f.service.None?;
    hide MatchService;
    if parsers != [] {
      var last := |parsers| - 1;
      OtherServicesExactly(parsers[..last], changed[..last], request, name);
      assert !MatchService(parsers[last], request) ==> parsers[last].service.Some? by {
        NamedService(parsers[last], request);
      }
    }
  }

  lemma NamedService(mask: Filter, request: Filter)
    ensures !MatchService(mask, request) ==> mask.service.Some?
  {
  }

  /**
   `config_filter_find_all`: the matching filters, most specific first. A request for no service in particular is also
   told which services have settings of their own.
   */
  method FindAll(parsers: seq<Filter>, changed: seq<bool>, request: Filter)
    returns (matches: seq<Filter>, output: Output, services: Option<seq<string>>)
    requires request.Valid() && |changed| == |parsers| && forall f :: f in parsers ==> f.Valid()
    ensures services == if request.service.None? then Some(OtherServices(parsers, changed, request)) else None
    ensures Sorted(matches) && multiset(matches) == multiset(Matching(parsers, request))
    ensures output == OutputOf(parsers, request)
    ensures forall f :: f in matches ==>
              && f in parsers && (f.localName.Some? ==> request.localName == f.localName)
              && (f.local.bits > 0 ==>
                    request.local.bits > 0 && Contains(f.local.net, f.local.bits, request.local.net))
              && (f.remote.bits > 0 ==>
                    request.remote.bits > 0 && Contains(f.remote.net, f.remote.bits, request.remote.net))
    ensures forall f :: f in matches && f.service.Some? && !("!" <= f.service.value) ==> request.service == f.service
    ensures forall f :: f in matches && f.service.Some? && "!" <= f.service.value ==>
              request.service.Some? && request.service.value != f.service.value[1..]
    ensures forall f, g :: f in parsers && g in parsers && Opposite(f, g)
                           && request.service.Some? && MatchRest(f, request) ==>
              (f in matches <==> g !in matches)
    ensures forall f :: f in parsers && f.service.None? && MatchRest(f, request) ==> f in matches
    ensures output.usedLocal <==> exists f :: f in matches && (f.local.bits > 0 || f.localName.Some?)
    ensures output.usedRemote <==> exists f :: f in matches && f.remote.bits > 0
  {
    hide Filter.Valid, MatchService, MatchRest, UsesLocal;
    var found, names := [], [];
    output := Output(false, false, false, false);
    var i := 0;
    while i < |parsers|
      invariant 0 <= i <= |parsers| && found == Matching(parsers[..i], request)
      invariant output == OutputOf(parsers[..i], request)
      invariant names == OtherServices(parsers[..i], changed[..i], request)
    {
      var mask := parsers[i];
      OutputStep(parsers, i, request);
      assert parsers[..i + 1][..i] == parsers[..i] && changed[..i + 1][..i] == changed[..i];
      NamedService(mask, request);
      if MatchService(mask, request) {
        var matching := MatchesRest(mask, request);
        output := Output(output.serviceUsesLocal || UsesLocal(mask), output.serviceUsesRemote || mask.remote.bits > 0,
                         output.usedLocal || (matching && UsesLocal(mask)),
                         output.usedRemote || (matching && mask.remote.bits > 0));
        if matching {
          found := found + [mask];
        }
      } else if mask.service.value !in names && changed[i] {
        names := names + [mask.service.value];
      }
      i := i + 1;
    }
    assert parsers[..i] == parsers && changed[..i] == changed;
    services := if request.service.None? then Some(names) else None;
    matches := Sort(found);
    FoundByService(parsers, request, matches);
  }

  /** Two filters alike in all but that one is for a service and the other for every other service. */
  ghost predicate Opposite(f: Filter, g: Filter) {
    && f.service.Some? && !("!" <= f.service.value)
    && g == f.(service := Some("!" + f.service.value))
  }

  lemma FoundByService(parsers: seq<Filter>, request: Filter, matches: seq<Filter>)
    requires request.Valid() && forall f :: f in parsers ==> f.Valid()
    requires multiset(matches) == multiset(Matching(parsers, request))
    ensures forall f :: f in matches ==>
              && f in parsers && (f.localName.Some? ==> request.localName == f.localName)
              && (f.local.bits > 0 ==>
                    request.local.bits > 0 && Contains(f.local.net, f.local.bits, request.local.net))
              && (f.remote.bits > 0 ==>
                    request.remote.bits > 0 && Contains(f.remote.net, f.remote.bits, request.remote.net))
    ensures forall f :: f in matches && f.service.Some? && !("!" <= f.service.value) ==> request.service == f.service
    ensures forall f :: f in matches && f.service.Some? && "!" <= f.service.value ==>
              request.service.Some? && request.service.value != f.service.value[1..]
    ensures forall f, g :: f in parsers && g in parsers && Opposite(f, g)
                           && request.service.Some? && MatchRest(f, request) ==>
              (f in matches <==> g !in matches)
    ensures forall f :: f in parsers && f.service.None? && MatchRest(f, request) ==> f in matches
    ensures (exists f :: f in parsers && Match(f, request) && UsesLocal(f)) <==>
            exists f :: f in matches && (f.local.bits > 0 || f.localName.Some?)
    ensures (exists f :: f in parsers && Match(f, request) && f.remote.bits > 0) <==>
            exists f :: f in matches && f.remote.bits > 0
  {
    hide Matching, Contains;
    forall f
      ensures f in matches <==> f in parsers && Match(f, request)
    {
      assert f in matches <==> f in multiset(matches);
      assert f in Matching(parsers, request) <==> f in multiset(Matching(parsers, request));
      MatchingExactly(parsers, request, f);
    }
    forall f: Filter
      ensures f.service.None? ==> MatchService(f, request)
      ensures f.service.Some? && "!" <= f.service.value ==>
                (MatchService(f, request) <==>
                 request.service.Some? && request.service.value != f.service.value[1..])
      ensures f.service.Some? && !("!" <= f.service.value) ==>
                (MatchService(f, request) <==> request.service == f.service)
    {
    }
    hide MatchService;
  }

  lemma OutputStep(parsers: seq<Filter>, i: nat, request: Filter)
    requires request.Valid() && i < |parsers| && forall f :: f in parsers ==> f.Valid()
    ensures var before, f := OutputOf(parsers[..i], request), parsers[i];
            OutputOf(parsers[..i + 1], request)
            == Output(before.serviceUsesLocal || (MatchService(f, request) && UsesLocal(f)),
                      before.serviceUsesRemote || (MatchService(f, request) && f.remote.bits > 0),
                      before.usedLocal || (Match(f, request) && UsesLocal(f)),
                      before.usedRemote || (Match(f, request) && f.remote.bits > 0))
  {
    hide Filter.Valid, MatchService, MatchRest, UsesLocal;
    var all, f := parsers[..i + 1], parsers[i];
    assert forall g :: g in all <==> g in parsers[..i] || g == f;
  }

  lemma {:induction false} MatchingExactly(parsers: seq<Filter>, request: Filter, f: Filter)
    requires request.Valid() && forall f :: f in parsers ==> f.Valid()
    ensures f in Matching(parsers, request) <==> f in parsers && Match(f, request)
  {
    if parsers != [] {
      var n := |parsers| - 1;
      MatchingExactly(parsers[..n], request, f);
      assert parsers == parsers[..n] + [parsers[n]];
    }
  }

  /**
   When a request gets the settings of a section it also gets those of every section around it, merged after
   the section's own wherever they differ in specificity.
   */
  lemma EnclosingSettings(filters: seq<Filter>, steps: seq<Step>, i: nat, j: nat, parsers: seq<Filter>, request: Filter,
                          matches: seq<Filter>)
    requires Chain(filters, steps) && AllRestrict(filters, steps) && i <= j < |filters|
    requires (forall f :: f in filters ==> f in parsers) && request.Valid() && forall f :: f in parsers ==> f.Valid()
    requires Sorted(matches) && multiset(matches) == multiset(Matching(parsers, request)) && filters[j] in matches
    ensures filters[i] in matches
    ensures forall a, b :: 0 <= a < |matches| && 0 <= b < |matches|
                           && matches[a] == filters[i] && matches[b] == filters[j] ==>
              b <= a || Cmp(filters[i], filters[j]) == 0
  {
    assert filters[j] in multiset(matches);
    MatchingExactly(parsers, request, filters[j]);
    Enclosed(filters, steps, i, j, request);
    MatchingExactly(parsers, request, filters[i]);
    assert filters[i] in multiset(Matching(parsers, request));
    assert filters[i] in multiset(matches);
    InnerFirst(filters, steps, i, j);
    CmpOrder(filters[i], filters[j], filters[i]);
  }
}
